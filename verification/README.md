# Proofs about the Wan containers, router, codecs and server lifecycle

This project models the parts of the Wan libraries whose correctness rests on an invariant, and
proves that the invariants hold. `dafny verify dfyconfig.toml` verifies it with Dafny 4.11.

What is modelled:

* **Ordered trees** (`LinkedTree.dfy`, `RedBlackTree.dfy`, `BalanceTree.dfy`): the red-black tree
  and the AVL tree as objects with left, right and parent links, rewritten in place by the same
  rotations, repair loops and successor relinking as in the source. A ghost algebraic tree whose
  nodes are the objects says what the links mean, and a zipper says where a loop stands. The link
  structure, the rotations, the iterators and the search loop are the same in both trees and are
  written once. `TreeRuns.dfy` compares whole runs of both trees with a map.
* **Insertion-ordered hash table** (`HashTable.dfy`): nodes that hang in a bucket chain and in one
  doubly linked list; the chain of a bucket is a function of the insertion order.
* **Server shutdown** (`Server.dfy`, `ServerRuns.dfy`) and **executor lifecycle** (`Executor.dfy`):
  transition systems in which every block under a lock and every atomic operation is one step, and everything that is
  not serialized interleaves. A theorem about a run is about every interleaving.
* **Router** (`Patterns.dfy`, `Router.dfy`): the radix tree with its node splitting and its
  backtracking search, against a plain list of patterns.
* **Protocol headers** (`HeaderText.dfy`, `Header.dfy`, `HeaderCodec.dfy`): printing and reading of
  request and response headers.
* **CRC-32** (`Crc32.dfy`), against section 8 of RFC 1952, and the **priority queue**
  (`PriorityQueue.dfy`).

`Common.dfy` and `Ordering.dfy` hold what several of these share.

Conventions. A comparator is any strict weak order. `delete` of a tree node is the node leaving the
ghost set `nodes`; the hash table records the freed nodes in order. 64-bit arithmetic is a
`newtype` whose overflow is an obligation, and an exception is a result value. Time, timer and accept
results are nondeterministic or parameters. Hashing a value is hashing its key, and keys are
compared by equality.

Where something the source's own documentation or interface suggests is not true of the code, the
model follows the code and the exact condition is proved:

* A header survives printing and reading exactly when it meets the conditions of `RequestOk` or
  `ResponseOk` and every field fits a line (`LinesFit`). The setters allow more: a field of any
  length (`LongFieldIsNotReadBack`), and a status message with a space, such as the "not found" of
  the library's own 404 response, which is never read back (`NotFoundIsNotReadBack`).
* An outside `ForceStop` does not reach every connection: it does exactly when the accept coroutine
  does not hold a connection that passed the last stop check and is not registered yet
  (`SweepComplete`, with a reachable counterexample in `ForceStopCanMiss`). The deadline of a
  graceful stop always does (`DeadlineReachesAll`).
* A drained server does not always stop at once: a cancellation that arrives before the drain timer
  is waited for has no effect, and then the server waits for the deadline (`CancellationCanBeLost`,
  with the exact condition in `UndelayedExactly`).

## Model

| member | source | states |
|---|---|---|
| LinkedTree.Links.LeftRevolve | Wan/Container/Base.hpp:391-414 | the links and the root after a left rotation are those of the rotated tree, with all parent links right |
| LinkedTree.Links.RightRevolve | Wan/Container/Base.hpp:420-443 | the mirror image |
| LinkedTree.RotatedLeftKeeps | Wan/Container/Base.hpp:391-414 | a left rotation changes neither the in-order sequence nor the node set |
| LinkedTree.RotatedRightKeeps | Wan/Container/Base.hpp:420-443 | a right rotation changes neither |
| LinkedTree.Links.Transplant | Wan/Container/Base.hpp:861-882 | another subtree hangs where the old node hung, in either child place or at the root |
| LinkedTree.Links.ReplaceBySuccessor | Wan/Container/Base.hpp:933-965 | the successor takes over the place, both subtrees and the parent links of the node, whether it was the right child or deeper |
| LinkedTree.Links.FindNode | Wan/Container/Base.hpp:887-903 | the search loop finds an equivalent key or the place for it, in at most as many rounds as the tree is high |
| LinkedTree.Links.Next | Wan/Container/Base.hpp:148-172 | `++` leads from the i-th node of the in-order sequence to the next one, or to the end, by links alone |
| LinkedTree.Links.Previous | Wan/Container/Base.hpp:190-214 | `--` leads to the one before it, so it undoes `++` at every node but the last |
| LinkedTree.Links.First | Wan/Container/Base.hpp:1234-1242 | `Begin` is the first node in order |
| LinkedTree.Links.Last | Wan/Container/Base.hpp:1278-1286 | `Rbegin` is the last node in order |
| LinkedTree.Links.Walk | Wan/Container/Tree.hpp:621-641 | iterating from `Begin` to `End` visits exactly the in-order sequence |
| LinkedTree.Links.WalkBack | Wan/Container/Tree.hpp:656-676 | the reverse walk visits the mirror image of it |
| LinkedTree.SortedInsert | Wan/Container/Base.hpp:658-688 | a node put into the place the search ends at keeps the key order |
| LinkedTree.RemovedOrder | Wan/Container/Base.hpp:909-972 | taking a node out takes exactly its element out of the in-order sequence |
| LinkedTree.SuccessorOrder | Wan/Container/Base.hpp:933-965 | relinking the successor leaves the sequence without the erased node |
| RedBlack.RedBlackTree.InsertAdjust | Wan/Container/Base.hpp:580-645 | from one red node below a possibly red parent, the repair loop ends in a tree with a black root, no red node below a red one and equal black heights, with the in-order sequence unchanged |
| RedBlack.RedBlackTree.InsertStep | Wan/Container/Base.hpp:582-640 | one round either moves the conflict two levels up or settles it, and keeps everything else |
| RedBlack.RedBlackTree.Push | Wan/Container/Base.hpp:654-692 | an absent key adds exactly one new node at one place and leaves a valid tree; an equivalent key changes nothing and returns the existing node |
| RedBlack.RedBlackTree.DeleteAdjust | Wan/Container/Base.hpp:984-1116 | from a place that lacks one black node, carried by parent and side when it is empty, the repair terminates, never meets a missing sibling and leaves valid colors and the same in-order sequence |
| RedBlack.RedBlackTree.FixRound | Wan/Container/Base.hpp:989-1110 | one round keeps the deficit at the place it moves to, or settles it; a measure that also covers the restart after the third case goes down |
| RedBlack.RedBlackTree.RedBrotherRight | Wan/Container/Base.hpp:1007-1016 | a red sibling is turned up, and the new sibling is black and present |
| RedBlack.RedBlackTree.InnerNephewRight | Wan/Container/Base.hpp:1032-1042 | the third case turns the inner nephew up and leaves the fourth case for the next round |
| RedBlack.RedBlackTree.OuterNephewRight | Wan/Container/Base.hpp:1043-1052 | the fourth case fills the missing black node and ends the repair |
| RedBlack.BrotherExists | Wan/Container/Base.hpp:998-1006 | a place that lacks a black node has a sibling, so the branches for none are never taken |
| RedBlack.RedBlackTree.EraseNode | Wan/Container/Base.hpp:909-977 | erasing a node of a valid tree leaves a valid tree whose in-order sequence is the old one without it |
| RedBlack.RedBlackTree.EraseInner | Wan/Container/Base.hpp:933-965 | with two children, the successor takes over place and color, and the deficit is at the successor's old place |
| RedBlack.RedBlackTree.PopKey | Wan/Container/Base.hpp:1139-1148 | exactly the element with an equivalent key goes, if there is one |
| RedBlack.RedBlackTree.FindKey | Wan/Container/Base.hpp:887-903 | finds exactly an equivalent key, in at most height many rounds |
| RedBlack.RedBlackTree.Clear | Wan/Container/Base.hpp:446-463 | terminates on every shape and frees exactly the nodes of the tree, each once, in key order |
| RedBlack.HeightBound | Wan/Container/Base.hpp:887-903 | a valid tree of height h with n elements has 2^(h/2) <= n + 1 |
| Balance.BalanceTree.UpdateHeightAndBalance | Wan/Container/Tree.hpp:798-804 | the stored height and balance of a node become those of its subtree |
| Balance.BalanceTree.RotateLeft | Wan/Container/Tree.hpp:811-838 | the rotation leaves exact stored heights and balances in both turned nodes |
| Balance.BalanceTree.RotateRight | Wan/Container/Tree.hpp:845-872 | the mirror image |
| Balance.BalanceTree.RebalanceFrom | Wan/Container/Tree.hpp:878-902 | climbing from a place whose height changed by at most one makes all stored heights and balances exact and all balances at most one, in the same order |
| Balance.BalanceTree.RebalanceNode | Wan/Container/Tree.hpp:880-900 | one round restores the node it stands at by a single or a double rotation |
| Balance.BalanceTree.Insert | Wan/Container/Tree.hpp:909-941 | an absent key adds exactly one element and keeps the tree exact and ordered; an equivalent key changes nothing |
| Balance.BalanceTree.Find | Wan/Container/Tree.hpp:1595-1616 | finds exactly an equivalent key, in at most height many rounds |
| Balance.BalanceTree.Pop | Wan/Container/Tree.hpp:1622-1693 | exactly the element with an equivalent key goes and the tree stays exact; an absent key changes nothing |
| Balance.BalanceTree.EraseInner | Wan/Container/Tree.hpp:1664-1688 | the successor is relinked and rebalancing starts at the lowest node whose height may have changed |
| Balance.HeightBound | Wan/Container/Tree.hpp:798-804 | an exact tree of height h has at least Fib(h + 2) - 1 elements |
| TreeRuns.RunRedBlack | Wan/Container/Base.hpp:654-1148 | any sequence of pushes and pops on a new red-black tree leaves a valid tree with exactly the values that a map over key equivalence holds after them, in ascending order |
| TreeRuns.RunBalance | Wan/Container/Tree.hpp:909-1693 | the same for the AVL tree |
| TreeRuns.NodesAfterPush | Wan/Container/Base.hpp:654-692 | a node put into its place in the order, when no equivalent key is there, is its value added to the map |
| TreeRuns.NodesAfterPop | Wan/Container/Base.hpp:1139-1148 | taking out the one equivalent node clears all equivalent keys of the map, and only those |
| TreeRuns.AgreementIsDetermined | Wan/Container/Base.hpp:887-903 | the map determines the values and their order, so both trees are iterated alike after the same operations |
| HashTables.MaximumElementsFor | Wan/Container/Base.hpp:1542-1547 | floor(capacity * factor / 10), with no step of the computation leaving 64 bits |
| HashTables.HashTable.Rehash | Wan/Container/Base.hpp:1502-1534 | all chains are those of the new capacity, while nodes, list and iteration order stay; the two refusals change nothing |
| HashTables.HashTable.Relink | Wan/Container/Base.hpp:1523-1531 | hanging the nodes in list order leaves every chain newest first |
| HashTables.HashTable.EnsureCapacityForOneMore | Wan/Container/Base.hpp:1554-1582 | terminates with room for one more element, after as few doublings as that needs, or reports overflow, if and only if `CannotGrow`: all doublings that stay within 64 bits are too few, or the index vector or the size would overflow |
| HashTables.HashTable.FittingCapacity | Wan/Container/Base.hpp:1855-1871 | the least doubling of the capacity that holds the elements, or overflow if and only if no doubling within 64 bits holds them |
| HashTables.HashTable.ChangeLoadFactor | Wan/Container/Base.hpp:1848-1877 | the load bound holds for the new factor; refused factors and overflow change nothing; overflow if and only if the elements do not fit and no doubling or no index vector holds them; contents and order stay |
| HashTables.HashTable.FindNodeByKey | Wan/Container/Base.hpp:1589-1607 | finds a node with the key exactly when the table holds one, by walking one chain |
| HashTables.HashTable.Push | Wan/Container/Base.hpp:1961-1986 | an absent key adds the value last, a present one changes nothing, and the overflow error, which comes if and only if the key is absent and `CannotGrow` holds, keeps the contents |
| HashTables.HashTable.EraseNode | Wan/Container/Base.hpp:1615-1658 | a node is taken out of both structures exactly when it hangs in the given bucket; all other chains and the list close up |
| HashTables.HashTable.Unchain | Wan/Container/Base.hpp:1630-1637 | bypassing one pointer leaves every chain right for the nodes that remain |
| HashTables.HashTable.Unlink | Wan/Container/Base.hpp:1638-1654 | bypassing the two list pointers leaves the list right in both directions |
| HashTables.HashTable.PopKey | Wan/Container/Base.hpp:2041-2054 | the element with the key goes, the others keep their order |
| HashTables.HashTable.Pop | Wan/Container/Base.hpp:2024-2034 | the element with the value's key goes |
| HashTables.HashTable.Copy | Wan/Container/Base.hpp:1731-1770 | a copy has nodes of its own, the same elements in the same order and the same bucket settings |
| HashTables.HashTable.Walk | Wan/Container/Base.hpp:1460-1474 | iteration yields the contents in insertion order |
| HashTables.HashTable.ClearNodes | Wan/Container/Base.hpp:1661-1677 | every node is freed exactly once, bucket by bucket, and an empty valid table remains |
| HashTables.ChainExact | Wan/Container/Base.hpp:1615-1627 | following a chain passes exactly the nodes of its bucket, each once, newest first |
| HashTables.ChainByHash | Wan/Container/Base.hpp:1589-1607 | the chain of a bucket holds exactly the nodes whose hash modulo the capacity is that bucket |
| HashTables.AfterRefines | Wan/Container/Base.hpp:1961-2054 | an operation on the contents is the operation on a map with unique keys |
| HashTables.FewCanGrow | Wan/Container/Base.hpp:1554-1582 | a table of fewer than 2^63 / 10 elements never refuses a new key, whatever its capacity and load factor |
| HashTables.RunRefines | Wan/Container/Base.hpp:1961-2054 | over any run of pushes, pops, load-factor changes and copies, in which an overflowing step keeps the contents, the contents are those of a map, iterated in the order of the pushes |
| HashTables.Perform | Wan/Container/Base.hpp:1731-2054 | each of these operations on a table object is the step on its contents, and it is refused for overflow only from 2^63 / 10 elements on |
| HashTables.PerformAll | Wan/Container/Base.hpp:1731-2054 | after any sequence of operations on a new table the object is valid and holds what the same steps leave in a map, in the order of the pushes; of up to 2^63 / 10 operations none is refused |
| Server.InvKept | Wan/Web/Server/Server.hpp:258-452 | every step of every thread keeps the protocol invariant; what each step does to the flags and to the accept loop is told by `FlagsTellHistory` and `LoopGoesOn` |
| Server.SlotsExact | Wan/Web/Server/Server.hpp:1063-1077 | in every reachable state the atomic counter equals the number of slot holders and is between 0 and the maximum |
| Server.StopOnlyWhenDrained | Wan/Web/Server/Server.hpp:1320-1343 | the executor is stopped only when stopping, run complete, no slot is held and no drain timer is outstanding |
| Server.DrainedForGood | Wan/Web/Server/Server.hpp:1320-1343 | from a requested stop on, no slot is taken and no connection is launched |
| Server.StopNotLost | Wan/Web/Server/Server.hpp:965-1006 | a drained server without an outstanding drain timer has been stopped, or a thread is about to, or still owes the check |
| Server.DrainedStops | Wan/Web/Server/Server.hpp:1320-1343 | from every such state at most three steps, each one that a thread takes without waiting for anything, lead to the stop |
| Server.StoppingStops | Wan/Web/Server/Server.hpp:910-1343 | from every reachable stopping state the stop can be completed: some run without a new call, a new connection or a failure leads to it |
| Server.AcceptShortens | Wan/Web/Server/Server.hpp:258-452 | while the server is stopping, every step of the accept coroutine that is no failure, no accepted connection and no spurious retry brings it nearer to its end |
| Server.NoTimerNoLaunch | Wan/Web/Server/Server.hpp:1214-1284 | if a graceful stop armed no timer, no connection is launched afterwards |
| Server.RegistryExact | Wan/Web/Server/ConnectionRegistry.hpp:99-141 | until the first sweep, the registry holds exactly the open connections |
| Server.SweepComplete | Wan/Web/Server/ConnectionRegistry.hpp:157-193 | any sweep in any reachable state reaches every connection there is or will be if and only if the accept coroutine holds none between the last check and registration |
| Server.SweepMisses | Wan/Web/Server/Server.hpp:385-418 | otherwise that connection is launched later and nobody tells it to close |
| Server.DeadlineReachesAll | Wan/Web/Server/Server.hpp:910-933 | the sweep of a fired deadline reaches every connection, whatever follows |
| Server.ForceStopCanMiss | Wan/Web/Server/Server.hpp:1286-1318 | a reachable run in which an outside `ForceStop` misses one |
| ServerRuns.FlagsTellHistory | Wan/Web/Server/Server.hpp:258-452 | in every reachable state each flag (stopping, forced, start complete, run complete, stop requested, swept) is set if and only if a step that sets it has happened |
| ServerRuns.LoopGoesOn | Wan/Web/Server/Server.hpp:326-419 | while nobody stops the server, the accept coroutine has left its loop if and only if the start failed, building a stream threw or the accept was aborted |
| ServerRuns.ServesOneMore | Wan/Web/Server/Server.hpp:326-419 | from every reachable state of an unstopped server whose loop goes on, with fewer connections than the maximum, one more connection can be launched, after which the server accepts again |
| ServerRuns.LaunchFailureIsSurvived | Wan/Web/Server/Server.hpp:385-418 | a launch that fails gives back its slot and its registration, and the loop goes on |
| ServerRuns.ReturnedCallStops | Wan/Web/Server/Server.hpp:1214-1318 | a stop call that has returned has stopped the server or found it stopping |
| ServerRuns.GracefulArms | Wan/Web/Server/Server.hpp:1240-1275 | a graceful stop arms the drain timer if and only if somebody holds a slot, and otherwise owes the final check at once |
| ServerRuns.GracefulIsPatient | Wan/Web/Server/Server.hpp:910-933 | unless a stop is forced, nobody is told to close, and the drain timer ends only when the server is drained |
| ServerRuns.ForceCancels | Wan/Web/Server/Server.hpp:1286-1318 | after a forced stop, a drain timer that is being waited for has a cancellation on its way |
| ServerRuns.ForcedOnce | Wan/Web/Server/Server.hpp:910-933 | after a forced stop the drain timer forces no second one, and does not begin to wait |
| ServerRuns.UndelayedExactly | Wan/Web/Server/Server.hpp:1320-1343 | a drained server can be stopped before its deadline, without a new call, if and only if its timer is past its wait, a stop was or is about to be forced, a cancellation has not arrived yet, or a check is owed |
| ServerRuns.CancellationCanBeLost | Wan/Web/Server/Server.hpp:919-959 | a reachable run in which none of these holds, because the cancellation arrives before the timer is waited for |
| ServerRuns.OptionFailureIsSurvived | Wan/Web/Server/Server.hpp:366-376 | a socket whose option cannot be set is given up without a trace, and the loop goes on |
| ServerRuns.CanBeStopped | Wan/Web/Server/Server.hpp:1214-1284 | from every reachable state a graceful stop by a new caller can lead to the stop of the executor |
| ServerRuns.CanBeForced | Wan/Web/Server/Server.hpp:1286-1318 | so can a forced one, which tells every registered connection to close |
| Executor.InvKept | Wan/Web/Core/Executor.hpp:95-233 | every step keeps the lifecycle invariant and moves the lifecycle forward only; which state each step leads to is told by `StateTellsHistory` |
| Executor.ForwardOnly | Wan/Web/Core/Executor.hpp:95-203 | over every interleaving at most one `Run` passes its guard, the lifecycle never goes back, and a joined executor has no live worker |
| Executor.StopNotLost | Wan/Web/Core/Executor.hpp:209-233 | once `Stop` was called, also during start-up, the context stays stopped and no later state is Running |
| Executor.FailureStops | Wan/Web/Core/Executor.hpp:338-366 | in every reachable state, with or without a call of `Stop`, a waiting failure has stopped the executor, or a thread that recorded one still will |
| Executor.FirstFailureRethrownOnce | Wan/Web/Core/Executor.hpp:338-366 | whoever leaves with a failure leaves with the first one recorded since the previous caller left, and nobody leaves empty-handed while one waits |
| Executor.PendingIsBlockStart | Wan/Web/Core/Executor.hpp:338-366 | what the slot must hold, told without recursion: the start of the last block of reports |
| Executor.StateTellsHistory | Wan/Web/Core/Executor.hpp:95-233 | in every reachable state the lifecycle, the stopped context, the number of workers and the failure record are exactly those that the steps so far call for |
| Executor.RunsUnlessStopped | Wan/Web/Core/Executor.hpp:144-148 | a `Run` that has ended with no stop, failed launch or join leaves the executor Running |
| Executor.CanRun | Wan/Web/Core/Executor.hpp:95-148 | any number of workers can be brought up to a Running executor |
| Executor.CanBeJoined | Wan/Web/Core/Executor.hpp:156-233 | from every reachable state the executor can be joined with no worker left, after a `Stop` or without one |
| Patterns.FitExact | Wan/Web/Router/Router.hpp:404-468 | a path matches with given captures if and only if they name the pattern's parameters, filling them in gives the path back, and each is of its kind and as long as it can be |
| Patterns.FittingPatternsPart | Wan/Web/Router/Router.hpp:404-468 | two patterns that fit one path part where one of them has a parameter |
| Patterns.ParseIsWellFormed | Wan/Web/Router/Router.hpp:115-172 | an accepted pattern text has distinct well-formed names, and a path parameter only at its end |
| Patterns.ParsePrint | Wan/Web/Router/Router.hpp:115-172 | every well-formed pattern can be written as a text that reads back as it |
| Patterns.ParseExact | Wan/Web/Router/Router.hpp:115-172 | the accepted texts are exactly those that write a well-formed pattern down, a name alone being that of a string parameter, and that is what they are read as |
| Patterns.RefusedExact | Wan/Web/Router/Router.hpp:115-172 | a text is refused with an error if and only if, after a well-formed beginning, it goes on with that fault |
| Patterns.PlainName | Wan/Web/Router/Router.hpp:140-145 | a parameter without a type is a string parameter |
| Patterns.DocumentedForms | Wan/Web/Router/Router.hpp:98-102 | the four forms of a parameter that the interface names, with their literal texts |
| Patterns.NameCharsAre | Wan/Web/Router/Router.hpp:158-164 | a parameter name consists of the 63 characters listed |
| Patterns.UpToSlash | Wan/Web/Router/Router.hpp:426-455 | up to a slash, an int parameter takes exactly the nonempty runs of digits and a string parameter all nonempty texts without a slash |
| Patterns.PathTakesAll | Wan/Web/Router/Router.hpp:426-455 | a path parameter takes every nonempty rest |
| Routing.RadixTree.Validate | Wan/Web/Router/Router.hpp:115-172 | the checking loop accepts exactly the texts that stand for a pattern, with the error of the first fault |
| Routing.RadixTree.Split | Wan/Web/Router/Router.hpp:306-326 | cutting a node's text leaves a trie with the same registered patterns |
| Routing.RadixTree.StepParameter | Wan/Web/Router/Router.hpp:179-271 | finds or adds the parameter child, or refuses if and only if an existing sibling clashes, changing nothing then, with the error of the first registered pattern that does |
| Routing.RadixTree.StepLiteral | Wan/Web/Router/Router.hpp:273-337 | reads some of the literal text along an old child or into a new one |
| Routing.RadixTree.Insert | Wan/Web/Router/Router.hpp:103-341 | a registration is accepted exactly when path, handler and pattern are good and no registered pattern conflicts; then exactly this pattern gets this handler; a refusal leaves every node as it was and carries the reason that the plain list gives |
| Routing.CutIsGood | Wan/Web/Router/Router.hpp:306-326 | a split keeps unique spellings, distinct siblings, reachability and the pattern table |
| Routing.WithKidIsGood | Wan/Web/Router/Router.hpp:265-269 | so does appending a child |
| Routing.ClashIsConflict | Wan/Web/Router/Router.hpp:240-263 | a clash with a node is a conflict with a registered pattern, since every node leads to one |
| Routing.ClashingKid | Wan/Web/Router/Router.hpp:240-263 | the first child that clashes belongs to the first registered pattern that clashes at the first place where any does, so it decides between the two conflict errors |
| Routing.RefusalsInOrder | Wan/Web/Router/Router.hpp:103-113 | the path must be absolute first, then there must be a handler, and only then the pattern counts |
| Routing.RadixTree.Capture | Wan/Web/Router/Router.hpp:426-455 | the capture loop takes the longest text of the parameter's kind |
| Routing.RadixTree.SearchNode | Wan/Web/Router/Router.hpp:374-469 | the recursive search returns the best candidate below the node with exactly its captures added, or none exists and the parameter map comes back as it was |
| Routing.RadixTree.TryParameter | Wan/Web/Router/Router.hpp:418-466 | a failed parameter branch takes its capture out of the map again |
| Routing.RadixTree.Search | Wan/Web/Router/Router.hpp:348-366 | the answer is that of the plain list: none if no registered pattern fits, else handler and captures of the one pattern preferred to all others that fit: a literal before a parameter, and of two parameters the one registered first |
| Routing.OneWinner | Wan/Web/Router/Router.hpp:404-468 | at most one pattern is preferred to all others, so the answer is determined |
| Routing.ExactPathWins | Wan/Web/Router/Router.hpp:374-469 | a path that is itself registered without parameters is always answered by its own handler, with no captures |
| Routing.OthersLose | Wan/Web/Router/Router.hpp:374-469 | a pattern does not answer where another that fits goes on with a literal, or with a parameter registered before |
| Routing.KidIsBest | Wan/Web/Router/Router.hpp:404-468 | trying literals first and parameters in order finds the preferred candidate |
| Routing.WithKidIsAged | Wan/Web/Router/Router.hpp:265-269 | parameter children stay in the order of their first registrations |
| Routing.Router.AddRoute | Wan/Web/Router/Router.hpp:598-615 | a frozen router refuses; otherwise only the list of this verb changes, as `Insert` says, a refused first route leaves no tree, and all that is added is new |
| Routing.Router.Configure | Wan/Web/Router/Router.hpp:561-615 | after any sequence of registrations on a new router, with a freeze anywhere in it, every verb's list is that of its own requests before the freeze |
| Routing.Router.Match | Wan/Web/Router/Router.hpp:561-579 | answers for the target without its query, from the verb's own list |
| Routing.QueryIsCut | Wan/Web/Router/Router.hpp:561-579 | what follows the first question mark is cut off the target, and nothing else is |
| Routing.RadixTree.InsertAll | Wan/Web/Router/Router.hpp:103-341 | after any sequence of requests a tree holds exactly the patterns, handlers and order of the plain list `RegisterAll` |
| Routing.LastOneWins | Wan/Web/Router/Router.hpp:103-341 | after any run of registrations a pattern is registered iff some request for it was accepted, with the handler of the last one |
| Routing.RegisteredAreAtPeace | Wan/Web/Router/Router.hpp:240-263 | registered patterns never conflict with each other, so each can be registered again |
| Routing.AnswersAfterRun | Wan/Web/Router/Router.hpp:348-469 | after any run, an answer carries the last handler accepted for the preferred fitting pattern, and its captures rebuild the path; no answer means that no accepted pattern fits |
| HeaderText.NumberRoundTrip | Wan/Network/Agreement/Protocol.hpp:1235-1241 | a number prints as at most 20 digits that parse back to it |
| HeaderText.PiecesJoin | Wan/Network/Agreement/Protocol.hpp:1249-1260 | words joined by spaces are cut into the same words |
| HeaderText.PiecesApart | Wan/Network/Agreement/Protocol.hpp:1249-1260 | a space only ever separates, however many there are |
| HeaderText.TrimExact | Wan/Network/Agreement/Protocol.hpp:1287-1301 | exactly the blanks around a text are cut off, on both sides |
| HeaderText.ReadUnsignedExact | Wan/Network/Agreement/Protocol.hpp:1235-1241 | an unsigned number is read if and only if the text is its digits, with zeros in front or not, in at most twenty characters, and it is below the limit |
| HeaderText.ReadSignedExact | Wan/Network/Agreement/Protocol.hpp:1235-1241 | the same for signed numbers, with a minus sign |
| Headers.RequestRoundTrip | Wan/Network/Agreement/Protocol.hpp:168-188 | a request header within the limits is read back whole, in whatever order its fields are printed |
| Headers.RequestReadOk | Wan/Network/Agreement/Protocol.hpp:1216-1403 | whatever the text, a request header that is read keeps the limits |
| Headers.RequestSurvives | Wan/Network/Agreement/Protocol.hpp:1216-1403 | a request header survives printing and reading if and only if it keeps the limits and each of its fields fits a line |
| Headers.RequestTooLong | Wan/Network/Agreement/Protocol.hpp:1310-1318 | a field too long for a line makes the whole text unreadable, wherever the field is printed |
| Headers.LongFieldIsNotReadBack | Wan/Network/Agreement/Assist.hpp:185-195 | such a header, within all other limits, that the setter lets through |
| Headers.ResponseRoundTrip | Wan/Network/Agreement/Protocol.hpp:387-403 | the same for responses |
| Headers.ResponseReadOk | Wan/Network/Agreement/Protocol.hpp:1405-1597 | whatever the text, a response header that is read keeps the limits |
| Headers.ResponseSurvives | Wan/Network/Agreement/Protocol.hpp:1405-1597 | a response header survives if and only if it keeps the limits and each of its fields fits a line |
| Headers.ResponseTooLong | Wan/Network/Agreement/Protocol.hpp:1508-1516 | the same for responses |
| Headers.NotFoundIsNotReadBack | Wan/Network/Agreement/Protocol.hpp:1194-1197 | the header of the library's own 404 response is never read back |
| Headers.ReadTail | Wan/Network/Agreement/Protocol.hpp:1302-1389 | the printed lines below the first one give back the special field, the timestamp and the whole field map |
| Headers.BlanksDoNotMatter | Wan/Network/Agreement/Protocol.hpp:1320-1350 | blanks around the key and around the value of a line do not matter |
| Headers.FieldPair | Wan/Network/Agreement/Protocol.hpp:1344-1389 | a field may come again and the last one counts, with room for ninety |
| Headers.SpecialPair | Wan/Network/Agreement/Protocol.hpp:1344-1389 | the special field may come once, with at most 512 characters |
| Headers.StampPair | Wan/Network/Agreement/Protocol.hpp:1344-1389 | the timestamp may come once, as a number that is not negative and at most a day ahead |
| Headers.ReadLinesExact | Wan/Network/Agreement/Protocol.hpp:1302-1389 | a text is read if and only if it is fewer than a hundred good lines and an empty one behind them, and then as what the lines add, a timestamp included |
| Headers.ReadRequestExact | Wan/Network/Agreement/Protocol.hpp:1216-1403 | a text is read as a request header if and only if its six words and its lines say it, within the limits |
| Headers.ReadResponseExact | Wan/Network/Agreement/Protocol.hpp:1405-1597 | the same for responses |
| Headers.RequestExample | Wan/Network/Agreement/Protocol.hpp:168-188 | the printed text of a request header, literally |
| Headers.ResponseExample | Wan/Network/Agreement/Protocol.hpp:387-403 | the printed text of a response header, literally |
| HeaderCodec.SplitWords | Wan/Network/Agreement/Protocol.hpp:1249-1260 | the cutting loop yields the nonempty pieces between spaces, ten at most |
| HeaderCodec.ReadFieldLines | Wan/Network/Agreement/Protocol.hpp:1302-1389 | the line loop, with its counters and flags, computes what the reading function says |
| HeaderCodec.SortedKeys | Wan/Network/Agreement/Protocol.hpp:65-72 | the keys of the field map, each once and in ascending order |
| HeaderCodec.BeforeExact | Wan/Network/Agreement/Protocol.hpp:65-72 | the order of the keys is decided at the first character where two of them differ |
| HeaderCodec.RequestHeader.ToString | Wan/Network/Agreement/Protocol.hpp:168-188 | prints the text of the header with its keys in ascending order |
| HeaderCodec.RequestHeader.FromString | Wan/Network/Agreement/Protocol.hpp:1216-1403 | succeeds exactly on readable texts and changes the object only then, to exactly what was read |
| HeaderCodec.ResponseHeader.ToString | Wan/Network/Agreement/Protocol.hpp:387-403 | the same for responses |
| HeaderCodec.ResponseHeader.FromString | Wan/Network/Agreement/Protocol.hpp:1405-1597 | the same for responses |
| Checksum.TableIsRemainders | Wan/Network/Crypt/Encryption.hpp:1011-1044 | all 256 table entries are the eight-step remainders of their indices |
| Checksum.Step8Linear | Wan/Network/Crypt/Encryption.hpp:1057-1060 | eight bit steps are linear over exclusive or |
| Checksum.TableStep | Wan/Network/Crypt/Encryption.hpp:1057-1060 | the table step of a byte equals eight bit steps |
| Checksum.ByteIsBits | Wan/Network/Crypt/Encryption.hpp:1057-1060 | and that equals feeding the byte's bits one by one, lowest first |
| Checksum.Crc32 | Wan/Network/Crypt/Encryption.hpp:1008-1062 | the loop computes the bit-at-a-time checksum of the bytes asked for; exactly a length beyond the data is an error |
| Checksum.OneByteDetected | Wan/Network/Crypt/Encryption.hpp:1008-1062 | messages that differ in one byte have different checksums |
| Checksum.EmptyText | Wan/Network/Crypt/Encryption.hpp:1061 | the checksum of the empty text is 0 |
| Checksum.Residue | Wan/Network/Crypt/Encryption.hpp:1008-1062 | a text followed by the four bytes of its checksum, lowest first, always has the checksum 0x2144DF1C |
| Checksum.CheckValue | Wan/Network/Crypt/Encryption.hpp:1008-1062 | the checksum of the nine digits is the published 0xCBF43926 |
| PriorityQueues.PriorityQueue.AdjustUpwards | Wan/Container/Queue.hpp:222-241 | sifting up from any `int` index restores the heap and keeps the multiset of items |
| PriorityQueues.PriorityQueue.AdjustDownwards | Wan/Container/Queue.hpp:244-271 | sifting down does too, unless an index leaves the 32-bit `int`, which up to 2^30 items it never does |
| PriorityQueues.PriorityQueue.Push | Wan/Container/Queue.hpp:282-286 | the heap gains exactly the item, if and only if its index is an `int` |
| PriorityQueues.PriorityQueue.Top | Wan/Container/Queue.hpp:292-299 | a maximum of the items, or the error exactly when empty |
| PriorityQueues.PriorityQueue.Pop | Wan/Container/Queue.hpp:332-341 | the queue loses exactly its top; an empty queue stays empty; the rest is a heap again unless an index leaves the `int` |
| PriorityQueues.PriorityQueue.Drain | Wan/Container/Queue.hpp:332-341 | popping until empty yields a permutation of the items, largest first |
| PriorityQueues.PerformAll | Wan/Container/Queue.hpp:282-341 | over any sequence of pushes and pops on a new queue every pop takes a maximum of what a multiset holds at that time, and what is left comes out in order; up to 2^30 operations no index leaves the `int` |
| PriorityQueues.RootIsMaximum | Wan/Container/Queue.hpp:222-241 | the root of a heap is a maximum under any strict weak order |

## Left out

- Sockets, TLS, HTTP parsing, DNS, files, logging, JSON and the ciphers: foreign code and input or output.
- Exceptions from allocation, from copying elements and from dispatching to the executor, and the executor's `DrainStopped`.
- Server and Executor: a block under a lock is one step of a state value, not a method of a class; the order of waiting threads and condition variables are not modelled.
- `Server::Wait` and restarting a server after it: the transition system covers one life from start to stop.
- Server.State: whether an accept succeeds and whether a timer has expired is nondeterministic, so the model has more runs than the program; what is said of all runs is about all of these.
- `Request::FromString` and `Response::FromString` on whole messages: they cut the header text before the blank line that the header parser demands, so a round trip is not true of them.
- The protocol type and the part of a timestamp below a millisecond: they are not printed.
- Routing.Router: moving a router and the five verb-named wrappers of `AddRoute`.
- HashTables.HashTable: moving and swapping tables, and the allocation of a bucket vector; `std::vector` index space is a constant.
- PriorityQueues.PriorityQueue: what happens after an index has left the source's `int`, which the methods report as not fitting; copying and construction from a list.
- Balance.BalanceTree: `Clear`, the rotations that neither `Insert` nor `Pop` uses, and the postfix operators of the reverse iterator.
- RedBlack.RedBlackTree: copying and counting; the assignment that gives the repair node the parent it already has (Base.hpp:947-950).
- Updating a value in place through an iterator, in any container.
- Map, Set, Stack, List, String, smart pointers, bit set and bloom filter: thin wrappers or easier members.
