# pingfs in Dafny

pingfs keeps a file system in immutable blocks: inodes of directories and files, links, and pieces of
file contents. A block names its children by id. Every change writes new blocks along one chain up to a new
root, switches the root, and frees the old chain. The blocks can live in a map, or on the network: a block is
then a ping that is sent out again each time its reply comes in, until it is freed.

This project models three parts and proves what they promise.

**The copy-on-write tree.** `FileSystem.BlockFuse` is the file system object: a root block, a block manager and
the checkpoints. Its methods follow the program's own loops and calls. Each is proved against `FsTree.Step`,
which says what a call does to the tree of blocks, ids included. `FsRefinement` then proves that `Step`
simulates a plain file system, a map from paths to attributes and bytes. So a reader gets, for every run
of `mkdir`, `create`, `write` and `rmdir`: the paths change as in the plain file system; the store holds exactly the
blocks of the current tree; every id was freed at most once; ids of children are below those of parents; no block is shared.
`RevertibleRuns` does the same for runs in which calls save the tree and go back to it, where frees are held back.

**Blocks as pings.** `AsyncBlockManagers` has the requests that wait for blocks, `PingCirculation` the network as a state
machine, and `PingBlockManagers` the manager that joins them. The main results are conservation of copies, and that every
completed request holds what a map would have returned, in some order.

**Packets.** `Framing` cuts the received bytes into packets, independently of how they were cut into chunks.
`EchoRequests` computes the checksum of what is sent. What is sent and answered is read back as it was (`EchoRoundTrip`).

## How it is laid out

| file | module | about |
|---|---|---|
| `FsUtil.dfy` | `FsUtil` | splitting and joining paths |
| `Blocks.dfy` | `Blocks` | blocks, the store, and the tree that a root id denotes in it |
| `BlockTree.dfy` | `BlockTree` | copying a chain (`Graft`), lookup by names, bytes of a tree, structural invariants |
| `FileLayout.dfy`, `FileWriter.dfy` | same | leaves and layers of links, as a function and as the methods that build them |
| `FsTree.dfy`, `FsRefinement.dfy` | same | what each call does to the tree; refinement of the plain file system |
| `BlockManager.dfy`, `BlockUtil.dfy`, `PathSearch.dfy` | same | the map store; the tree algorithms over it; the search by name |
| `FuseLemmas.dfy`, `FuseSteps.dfy` | same | accounts of ids across one call, and the facts the methods use |
| `ProperTrees.dfy` | `ProperTrees` | file systems in which only directories hold paths, and what keeps them so |
| `Checkpoints.dfy`, `RevertibleRuns.dfy` | same | what calls free while a checkpoint holds frees back; runs with saving and reverting, and when a saved tree survives |
| `BlockFuse.dfy` | `FileSystem` | the file system class |
| `AsyncBlockManager.dfy` | `AsyncBlockManagers` | waiting responses |
| `AnyOrder.dfy` | `AnyOrder` | the tree algorithms where responses come in any order |
| `PingCirculation.dfy`, `PingBlockManager.dfy` | `PingCirculation`, `PingBlockManagers` | the network and the manager over it |
| `UpdatingIdSupplier.dfy` | `UpdatingIdSuppliers` | ids shared out among nodes |
| `Framing.dfy`, `EchoRequest.dfy`, `EchoRoundTrip.dfy` | `Framing`, `EchoRequests`, `EchoRoundTrip` | packets as they are read and sent, and the two together |

In the imperative modules, ghost parameters and fields name the tree (`Node`) that the blocks stand for.
`Stored(m, t)` says that store `m` has the blocks of `t`; `StoredUnique` makes the tree a function of the store and the root.

## Where the code does not do what it means to

The model keeps the code as it is, and the results say exactly when it is right.

* A leaf is cut with an end position in place of a length (`lib/src/fs/block_util.cc:327-332`), so leaf *i* holds everything from
  its start on. The bytes read back always begin with the contents written; they equal them exactly when they fit in one
  block (`StoredBytesExact`, `ReadAfterWrite`). Leaves of one block each would be right for every size (`CutLeavesMean`).
* A path "//name" is split into an empty name and `name`, but joining all but the last part gives "/", so the new inode goes
  to the root (`lib/src/fs/block_fuse.cc:119-128`, `515-516`). `StepRefines` holds exactly when no such path is created; `create` then fails
  its last assertion (`lib/src/fs/block_fuse.cc:656-659`), which the model returns as `AssertFailed`. It can also give the root two
  children of one name (`StepKeepsUniqueNames`).
* `mkdir` and `create` only ask that the parent is an inode (`lib/src/fs/block_fuse.cc:127-134`, `509-532`), so inodes can lie below a file. A write to
  that file then removes them. The plain file system of `StepRefines` does so too. How it differs from the intended one is exact:
  a write touches its own path only exactly if nothing lies below it (`WriteTouchesOwnPathIff`); a new path keeps files free of paths exactly
  if its parent is a directory (`AddKeepsProperIff`, `StepKeepsProperIff`); and over runs this holds at every moment exactly if every new path is
  put into a directory (`RunStaysProperIff`). Then each call changes its own path only, and no inode lies below a file in the tree of blocks (`RunFromNew`).
* The walk back in `find_path` gives the deepest block first (`lib/src/fs/block_util.cc:71-73`), while `get_path` takes the last of the
  list as the target (`lib/src/fs/block_fuse.cc:257`). No inode lies below a link (`Shape`), so the list has one block and both agree (`TrailToKid`).
* The recursive free goes to the manager directly (`lib/src/fs/block_util.cc:261`) and so past the guard of a checkpoint
  (`lib/include/pingfs/fs/revertible_block_fuse.hpp:60-64`). Over any run, saving and reverting included, a saved tree survives exactly if no call other than a
  revert finds one of its blocks below the target (`SavedSurvivesIff`), which a caller can tell before each call. Between checkpoint calls that means
  a block older than the checkpoint (`CheckpointSurvivesIff`); `CheckpointBreaksExample` breaks one. With the descent behind the guard, every saved tree
  would survive every run (`GuardedRunKeepsTrees`).
* Making a directory under the sentinel saves the tree before it is known whether the directory can be made (`lib/src/fs/revertible_block_fuse.cc:46-50`), so asking
  twice replaces the saved tree, exactly if the first directory was made (`SavedTwice`).
* Blocks that come back are published before the check for freed ids (`lib/src/block/block_manager/ping/ping_block_service.cc:62-67`), unlike the comment at
  `lib/include/pingfs/block/block_manager/ping/ping_block_service.hpp:48-51`. The two halves are separate steps of the model.
  A freed block is published at most once more, and exactly if its copy was on the network at the free rather than held for its check (`PublishedAfterFree`).
* Responses hold blocks in the order of arrival (`lib/src/block/block_manager/async_response.cc:43-44`), while reading a file needs the order of the
  request. The response is what a map would return exactly if the blocks first arrive in the order of the request (`ResponseIsLookUpIff`), and it is so for every
  order of arrival exactly if at most one id is asked for (`EveryOrderIff`). Lookups by name and the recursive free do not depend on the order
  (`SameNamesBelow`, `SameIdsAll`); the bytes read are the stored ones in every order exactly if at every level each two pieces can be swapped (`AlwaysReadsIff`). As a multiset it is right exactly if no id is asked for twice (`CompletedRequestsAnswer`).
* The checksum adds the carry in once (`lib/src/ping/echo_request.cc:15`). `ChecksumValidIff` says for which messages this is enough.
* A heard id with the very high bits that are about to be used does not move the counter (`lib/src/block/block_manager/id_supplier/updating_id_suppler.cc:25`);
  see `DrawExceedsAllHeardIff`.
* A packet with length zero that is no echo reply is taken off forever (`ZeroLengthStalls`). The drain loop ends exactly if each packet it reaches can be read
  and is not empty (`StopsIffDrainable`). The header of an ICMP packet is read from the buffer, not from the packet (`lib/src/ping/ping.cc:47-66`), so whether a short one
  can be read depends on the bytes behind it (`ShortIcmpExample`). Independence of chunks is therefore stated for streams without short ICMP packets (`Sane`).

## Model

| member | source | states |
|---|---|---|
| FsRefinement.StepRefines | lib/src/fs/block_fuse.cc:139-236 | for every state and call: the paths, attributes, bytes and the code returned are those of the plain file system, if and only if the call does not create an unresolved "//name" |
| FsRefinement.RunRefines | lib/src/fs/block_fuse.cc:139-660 | the same for every run of calls without paths "//name", with all invariants and distinct sibling names kept to the end |
| FsRefinement.RunRefinesIff | lib/src/fs/block_fuse.cc:139-660 | every run of any calls shows at every moment, and returns each time, what the plain file system does, if and only if no call creates a path "//name" that is unresolved when it is made |
| FsRefinement.StepKeepsInv | lib/src/fs/block_fuse.cc:173-234 | every call, whatever its path, keeps a tree without sharing, ids falling from parent to child, directories with inodes as their only children, links of one to four blocks with no inode below them, a directory as root; and new tree plus freed ids make up old tree plus new ids, id by id |
| FsRefinement.StepKeepsUniqueNames | lib/src/fs/block_fuse.cc:103-136 | sibling names stay distinct, if and only if the call is not a "//name" whose name the root already has |
| FsRefinement.DivergingStep | lib/src/fs/block_fuse.cc:119-128 | creating an unresolved "//name" never does what the plain file system does |
| FsRefinement.ParentNamesAre | lib/src/fs/block_fuse.cc:119-128 | the parent looked up is the path without its last name, but for the two names of "//name", where it is the root |
| FsRefinement.AddShows | lib/src/fs/block_fuse.cc:139-181 | after an inode is created under a parent, its path shows it, unless an older sibling has the name, and every other path shows what it did |
| FsRefinement.WriteShows | lib/src/fs/block_fuse.cc:549-640 | after a write, the path shows the overwritten bytes as stored with their new size, paths below it are gone, all others are as before |
| FsRefinement.RmdirShows | lib/src/fs/block_fuse.cc:190-236 | after a removal, the path and those below it are gone, all others are as before |
| FsRefinement.PlainCodes | lib/src/fs/block_fuse.cc:21-37 | the number that each call returns, and exactly when |
| FsRefinement.MadePathShows | lib/src/fs/block_fuse.cc:139-181 | a path just made shows its attributes and no bytes, and all others what they did |
| FsTree.EditIds | lib/src/fs/block_util.cc:200-242 | the one change a call makes accounts for each id: in the new tree or freed as often as in the old tree or newly made |
| FsTree.EditKeepsInv | lib/src/fs/block_util.cc:200-242 | a change of one inode keeps the invariants of the whole tree; names stay distinct if and only if they are under the new inode |
| FsTree.AddIsGood | lib/src/fs/block_fuse.cc:139-181 | creating an inode keeps name, type and form of its parent and accounts for every id |
| FsTree.WriteIsGood | lib/src/fs/block_fuse.cc:582-640 | a write keeps name and type of the file, replaces all below it, and accounts for every id |
| FsTree.RmdirIsGood | lib/src/fs/block_fuse.cc:204-234 | a removal drops one child with all below it, keeps its siblings, and accounts for every id |
| FsTree.RemovedChild | lib/src/fs/block_fuse.cc:200-226 | the block before the end of the chain is the inode of the path without its last name, and the child cut off is the first of that name |
| FsTree.OverwriteBytes | lib/src/fs/block_fuse.cc:572-572 | byte by byte: a write puts the buffer at the offset, keeps the old bytes before and behind it, and never shortens a file |
| ProperTrees.WriteTouchesOwnPathIff | lib/src/fs/block_fuse.cc:573-574 | a write changes its own path and no other, if and only if nothing lies below that path |
| ProperTrees.AddKeepsProperIff | lib/src/fs/block_fuse.cc:127-134 | where only directories hold paths, a new path keeps that if and only if its parent is a directory |
| ProperTrees.StepKeepsProperIff | lib/src/fs/block_fuse.cc:139-660 | any call keeps it, if and only if the call does not make a path below a file |
| ProperTrees.RunStaysProperIff | lib/src/fs/block_fuse.cc:139-660 | over a run it holds at every moment, if and only if each new path of the run is put into a directory |
| ProperTrees.RunTouches | lib/src/fs/block_fuse.cc:139-660 | in such a run each call changes what is seen at its own path only, a removal also below it |
| ProperTrees.TreeIsProperIff | lib/src/fs/block_util.cc:200-242 | no inode lies below a file in the tree of blocks, if and only if no path lies below a file in what is seen |
| ProperTrees.RunKeepsTreeProper | lib/src/fs/block_fuse.cc:139-660 | in such a run no inode comes to lie below a file in the tree of blocks |
| ProperTrees.RunFromNew | lib/src/fs/block_fuse.cc:39-660 | all of this for every such run in a new file system |
| ProperTrees.WriteHidesExample | lib/src/fs/block_fuse.cc:573-574 | a write to a file in which a directory was made removes the directory |
| FileSystem.BlockFuse.constructor | lib/src/fs/block_fuse.cc:39-62 | a new file system is a root directory without children, and nothing else is stored |
| FileSystem.BlockFuse.GetPath | lib/src/fs/block_fuse.cc:239-259 | the blocks from the root to the inode to which the names lead, or none exactly if a name is missing |
| FileSystem.BlockFuse.GetPathPart | lib/src/fs/block_fuse.cc:317-357 | below an inode the search yields exactly the first child of the name, or nothing; the separator yields the root |
| FileSystem.BlockFuse.GetAttr | lib/src/fs/block_fuse.cc:80-97 | the attributes at a path, or none if nothing is there |
| FileSystem.BlockFuse.Read | lib/src/fs/block_fuse.cc:442-482 | the bytes that the path shows, from the offset, cut at the end; each error code |
| FileSystem.BlockFuse.FreeBlock | lib/src/fs/revertible_block_fuse.cc:29-34 | frees one id, or nothing once a checkpoint was taken |
| FileSystem.BlockFuse.FreeChain | lib/src/fs/block_fuse.cc:176-179 | frees exactly the ids of a chain, or nothing once a checkpoint was taken |
| FileSystem.BlockFuse.InsertInode | lib/src/fs/block_fuse.cc:160-180 | adding an inode at the end of a chain changes the tree as `Step` says and frees the old chain, each block once |
| FileSystem.BlockFuse.MkdirValid | lib/src/fs/block_fuse.cc:103-136 | exactly when a directory can be made; then the chain to the parent and the last name |
| FileSystem.BlockFuse.Mkdir | lib/src/fs/block_fuse.cc:139-181 | carries out `Step`, returns its code, frees exactly the old chain, touches no other stored block |
| FileSystem.BlockFuse.Create | lib/src/fs/block_fuse.cc:642-660 | the same for `create`, with both error codes and the last assertion |
| FileSystem.BlockFuse.CreateFileBlock | lib/src/fs/block_fuse.cc:495-546 | the part of `create` for a path that does not resolve |
| FileSystem.BlockFuse.Write | lib/src/fs/block_fuse.cc:549-579 | carries out `Step` with each error code, frees what lay below the file and the old chain |
| FileSystem.BlockFuse.WriteFileStartingAtNode | lib/src/fs/block_fuse.cc:582-640 | from a store where what lay below the file is gone, reaches the tree of `Step` with nothing leaked or freed twice |
| FileSystem.BlockFuse.Rmdir | lib/src/fs/block_fuse.cc:190-236 | carries out `Step`, frees the chain, the removed inode and all below it; the search backwards for a block that is no link stops at once |
| FileSystem.BlockFuse.RemoveEnd | lib/src/fs/block_fuse.cc:215-234 | cutting the end off a chain does all that a removal should |
| FileSystem.BlockFuse.DetachEnd | lib/src/fs/block_fuse.cc:215-230 | the new root is stored whole before the old chain is freed |
| FileSystem.BlockFuse.Unlink | lib/src/fs/block_fuse.cc:184-187 | removes files as directories, by the same dispatch: a path with a checkpoint reverts |
| FileSystem.BlockFuse.Perform | lib/src/fs/block_fuse.cc:139-660 | any call on a file system without checkpoint calls carries out `Step` |
| FileSystem.BlockFuse.PerformAll | lib/src/fs/block_fuse.cc:139-660 | any sequence of calls on a file system without checkpoint calls: state, outcomes and freed ids are those of the run; no leak, no double free; without "//name" the user sees the plain file system |
| FileSystem.BlockFuse.Checkpoint | lib/src/fs/revertible_block_fuse.cc:20-23 | returns the root and holds frees back from then on |
| FileSystem.BlockFuse.Revert | lib/src/fs/revertible_block_fuse.cc:25-27 | the saved root is the root |
| FileSystem.BlockFuse.RevertibleMkdir | lib/src/fs/revertible_block_fuse.cc:36-51 | carries out `RevStep`: a path under the sentinel saves the tree as it was before the directory, then makes it |
| FileSystem.BlockFuse.RevertibleRmdir | lib/src/fs/revertible_block_fuse.cc:53-60 | carries out `RevStep`: a path with a checkpoint brings back the saved root and its tree, in order if and only if that is still stored; other paths are removed |
| FileSystem.BlockFuse.Dispatch | lib/src/fs/fuse_wrapper.cc:41-75 | any call, dispatched to the overriding methods, carries out `RevStep`, frees exactly its ids, and leaves all in order unless it goes back to a tree that lost a block |
| FileSystem.BlockFuse.DispatchAll | lib/src/fs/revertible_block_fuse.cc:20-60 | any sequence of calls whose reverts find their trees: state, outcomes and freed ids are those of the run; without "//name" the user sees the plain file system with checkpoints |
| FileSystem.ReadAfterWrite | lib/src/fs/block_fuse.cc:442-640 | reading where one wrote gives what was written, for files of any size; size and time are set, no other attribute changes; all bytes are as intended if and only if they fit in one block |
| FileSystem.ReadBesideWrite | lib/src/fs/block_fuse.cc:442-640 | any range of the old file that a write did not cover reads as before |
| FileSystem.ReadGives | lib/src/fs/block_fuse.cc:442-482 | a file gives the bytes from the offset on, as many as asked for or all up to its end, with their number; past the end nothing; a directory and a missing path a code |
| FileSystem.NewFileSystemShows | lib/src/fs/block_fuse.cc:39-62 | a new file system shows an empty root directory and nothing else |
| FileSystem.SaveRunAndRevert | lib/src/fs/revertible_block_fuse.cc:20-60 | saving a checkpoint, any calls that leave this path alone, other saves and reverts included, and going back: the saved root and tree are back, and all is in order if and only if no call other than a revert found one of its blocks below the target |
| FileSystem.DoubleSlashExample | lib/src/fs/block_fuse.cc:119-128 | in a new file system, making "//x" does something else than it should |
| RevertibleRuns.SavedSurvivesIff | lib/include/pingfs/fs/revertible_block_fuse.hpp:60-64 | over any run with frees held back, saving and reverting included, a stored tree stays if and only if no call other than a revert finds one of its blocks below the target |
| RevertibleRuns.RevStepRefines | lib/src/fs/revertible_block_fuse.cc:36-60 | a call does to what is seen, and to what is saved, what a plain file system with checkpoints does, if and only if it does not create an unresolved "//name" |
| RevertibleRuns.RevRunRefines | lib/src/fs/revertible_block_fuse.cc:20-60 | over every run without paths "//name", saving and reverting included, the user sees the plain file system with checkpoints |
| RevertibleRuns.RevRunRefinesIff | lib/src/fs/revertible_block_fuse.cc:20-60 | every run, saving and reverting included, shows and saves at every moment what it should, if and only if no call creates a path "//name" that is unresolved when it is made |
| RevertibleRuns.RevStepKeepsInv | lib/src/fs/revertible_block_fuse.cc:36-60 | every call keeps the tree and all saved trees sound |
| RevertibleRuns.RevFreedAreOlder | lib/src/fs/revertible_block_fuse.cc:29-34 | no call frees an id yet to be handed out |
| RevertibleRuns.StaysSaved | lib/src/fs/revertible_block_fuse.cc:36-60 | a path that a run neither saves again nor removes keeps its saved tree |
| RevertibleRuns.SavedTwice | lib/src/fs/revertible_block_fuse.cc:46-50 | saving twice under a path loses the first tree if and only if the first directory was made |
| RevertibleRuns.PlainCallsOnly | lib/src/fs/revertible_block_fuse.cc:29-60 | a run without checkpoint calls is a run of the plain calls, with the same frees |
| RevertibleRuns.PlainPathsOnly | lib/src/fs/revertible_block_fuse.cc:36-60 | without checkpoints, a run that makes no directory under "/__checkpoint_" is just a run of the plain file system, frees included |
| RevertibleRuns.SentinelSaves | lib/src/fs/revertible_block_fuse.cc:40-50 | making a directory under "/__checkpoint_" saves what there was and holds frees back |
| RevertibleRuns.GuardedRunKeepsTrees | lib/src/fs/block_util.cc:261-261 | if the recursive free went through the guard, every stored tree would survive every run |
| RevertibleRuns.CheckpointSurvivesIff | lib/include/pingfs/fs/revertible_block_fuse.hpp:60-64 | over a run without further checkpoint calls, the tree of a checkpoint stays in the store if and only if no write or removal finds below its target a block older than the checkpoint |
| Checkpoints.RunFreesOlder | lib/src/fs/block_util.cc:245-270 | over a run without checkpoint calls, with frees held back, the older blocks freed were in the tree at its start, and there are none if and only if no call finds one below its target |
| RevertibleRuns.CheckpointBreaksExample | lib/src/fs/block_util.cc:261-261 | a write to a file of one byte breaks a checkpoint |
| Checkpoints.SurvivesIff | lib/src/fs/revertible_block_fuse.cc:20-34 | over any run, a stored tree stays if and only if none of its ids is freed |
| RevertibleRuns.BareRunFreesNothing | lib/src/fs/revertible_block_fuse.cc:29-34 | with frees held back, a run that writes to empty files and removes childless inodes only, and may save and revert, frees nothing |
| RevertibleRuns.BareRunKeepsTrees | lib/include/pingfs/fs/revertible_block_fuse.hpp:60-64 | every stored tree survives such a run |
| Checkpoints.CheckpointBreaksIff | lib/src/fs/block_util.cc:245-270 | right after a checkpoint, the saved tree survives a call if and only if nothing lies below the target of the call |
| Checkpoints.FreedAreOlder | lib/src/fs/block_fuse.cc:173-179 | a call frees no id that is yet to be handed out |
| FuseLemmas.CallDone | lib/src/fs/block_fuse.cc:173-179 | once the new tree is stored and the planned ids are freed, everything that holds between calls holds again |
| FuseLemmas.KeepsAccounts | lib/src/fs/block_fuse.cc:176-179 | each id handed out is stored or was freed exactly once; if nothing was leaked before and all planned ids are freed, nothing is leaked after |
| FuseLemmas.StillStored | lib/src/fs/block_fuse.cc:173-179 | freeing the old chain does not touch the new tree, though they share subtrees |
| FuseLemmas.SideWithout | lib/src/fs/block_fuse.cc:573-574 | freeing below the end of a chain leaves what hangs beside the chain |
| BlockUtil.ReplaceChain | lib/src/fs/block_util.cc:200-242 | a path copy: the new root denotes the old tree with only the end of the chain changed, all else shared; the old blocks are all still there; ids as many as the chain is long |
| BlockUtil.RemoveIds | lib/src/fs/block_util.cc:154-168 | removes each id once, in order, where each is present |
| BlockUtil.RemoveEverything | lib/src/fs/block_fuse.cc:627-634 | removing all children leaves none, and the assertion on a missing id does not fire |
| BlockUtil.RemoveChild | lib/src/fs/block_util.cc:224-233 | removing the id of one child removes that child and no other, and the assertion does not fire |
| BlockUtil.GetFileContents | lib/src/fs/block_util.cc:114-137 | the pieces collected are the bytes of the trees, left to right |
| BlockUtil.ReadFileContents | lib/src/fs/block_util.cc:140-152 | the bytes of a file are those below its inode |
| BlockUtil.RecursiveFreeChildrenBlocks | lib/src/fs/block_util.cc:245-270 | frees exactly the ids below a block, each once, and no others |
| BlockUtil.KidsStillThere | lib/src/fs/block_util.cc:253-269 | after the children and some of the subtrees are freed, the blocks below the next child are still all there |
| BlockTree.GraftIds | lib/src/fs/block_util.cc:200-242 | the copy of a chain exchanges the ids of the chain and of its end for new ones, and no others |
| BlockTree.GraftShape | lib/src/fs/block_util.cc:200-242 | the copy keeps the form of the tree |
| BlockTree.GraftOrdered | lib/src/fs/block_util.cc:200-242 | the copy keeps children's ids below their parents' |
| BlockTree.GraftUniqueNames | lib/src/fs/block_util.cc:200-242 | the copy keeps sibling names distinct, if and only if they are so below the new end |
| BlockTree.FindInGraft | lib/src/fs/block_util.cc:200-242 | lookup in the copy: below the changed inode as that inode says, elsewhere as before, although changed children move to the end |
| BlockTree.ChildAfterMove | lib/src/fs/block_util.cc:224-239 | moving a changed child to the end does not change which names are found |
| BlockTree.ResolveSnoc | lib/src/fs/block_fuse.cc:239-259 | a path leads where its last name leads from where the path without it leads |
| Blocks.StoredUnique | lib/src/block/block_manager/memory_block_manager.cc:35-44 | a root id denotes at most one tree in a store |
| Blocks.StoredFrame | lib/src/block/block_manager/memory_block_manager.cc:18-33 | a tree depends on its own blocks only |
| FileLayout.LayersMean | lib/src/fs/block_util.cc:278-352 | any number of link layers over blocks reads as the blocks in order, and adds exactly the next ids |
| FileLayout.FlattenLinks | lib/src/fs/block_util.cc:278-305 | the first links of a layer read as the blocks they cover |
| FileLayout.LinkOver | lib/src/fs/block_util.cc:284-304 | every link has one to four children, the next in order |
| FileLayout.FileKidsMean | lib/src/fs/block_util.cc:307-352 | what is built for a write holds the stored bytes of the contents, has no inode, and uses each new id once |
| FileLayout.StoredBytesExact | lib/src/fs/block_util.cc:327-332 | the stored bytes begin with the contents, and equal them if and only if these fit in one block |
| FileLayout.OverlongLeafExample | lib/src/fs/block_util.cc:327-332 | a file of one byte more than a block stores its last byte twice |
| FileLayout.CutLeavesMean | lib/src/fs/block_util.cc:318-334 | leaves of at most one block each would read back as the contents |
| FileLayout.NumLeaves | lib/src/fs/block_util.cc:318-321 | the quotient rounded up; leaf i exists if and only if it starts within the contents |
| FileLayout.LeafData | lib/src/fs/block_util.cc:327-332 | leaf i holds all contents from its start on |
| FileLayout.LinkDepthIsLeast | lib/src/fs/block_util.cc:322-324 | the depth is the least whose power of the branching factor covers the leaves |
| FileLayout.OneKidPerFile | lib/src/fs/block_util.cc:335-346 | a file of any size hangs from one block, with fewer links than leaves |
| FileLayout.FiveLeavesExample | lib/src/fs/block_util.cc:322-324 | four leaves fit under one link, five take two layers with three links |
| FileWriter.AddLinkLayer | lib/src/fs/block_util.cc:278-305 | builds and stores exactly the layer of links over some blocks |
| FileWriter.ReplaceBlocksForContents | lib/src/fs/block_util.cc:307-352 | stores exactly the subtrees for the contents, and returns the ids of the topmost blocks |
| FileWriter.CreateLeaves | lib/src/fs/block_util.cc:325-334 | stores the leaves of the contents, in order |
| FileWriter.ChildLinks | lib/src/fs/block_util.cc:289-299 | the ids of the children of one link |
| PathSearch.SearchIsComplete | lib/src/fs/block_fuse.cc:269-357 | the breadth-first search finds a name if and only if an inode of that name is reachable through links only |
| PathSearch.SearchInInode | lib/src/fs/block_fuse.cc:317-357 | where no inode lies below a link, it finds the first child of the name |
| PathSearch.FindPath | lib/src/fs/block_util.cc:35-78 | finds a way if and only if the target is below through retrieved blocks; the list, reversed, is then a chain of parents and children down to it |
| PathSearch.TrailIsChain | lib/src/fs/block_util.cc:60-75 | the list starts with the target, and each block is a child of the next |
| PathSearch.GetPathPartHelper | lib/src/fs/block_fuse.cc:269-307 | one layer: the first inode of the name among the blocks, or else the ids of the next layer, with every block seen remembered |
| PathSearch.GetPathPart | lib/src/fs/block_fuse.cc:317-357 | a chain to the block that the search finds, or nothing |
| PathSearch.TrailToKid | lib/src/fs/block_fuse.cc:251-257 | without sharing, the chain to a child is that child alone, so the last of the list is the target |
| FuseSteps.ParentIsNoLink | lib/src/fs/block_fuse.cc:204-217 | the block before the end of a chain is no link |
| BlockManager.MemoryBlockManager.CreateBlock | lib/src/block/block_manager/memory_block_manager.cc:18-27 | stores the data under the next id of the counter, and nothing else changes |
| BlockManager.MemoryBlockManager.FreeBlock | lib/src/block/block_manager/memory_block_manager.cc:29-33 | drops one id, and nothing else changes |
| BlockManager.MemoryBlockManager.GetBlocks | lib/src/block/block_manager/memory_block_manager.cc:35-44 | the blocks asked for, in the order of the request |
| FsUtil.SeparatePath | lib/src/fs/fs_util.cc:20-41 | the loop yields `Parts`: the root, then the text between separators; `JoinUndoesSeparate` and `SeparateUndoesJoin` say what these are worth |
| FsUtil.Join | lib/src/fs/fs_util.cc:44-59 | the loop yields `Joined`, with a separator after each part but the root and the last |
| FsUtil.JoinUndoesSeparate | lib/src/fs/fs_util.cc:20-59 | joining the parts of any path that starts with "/" gives the path |
| FsUtil.SeparateUndoesJoin | lib/src/fs/fs_util.cc:20-59 | separating joined parts gives them back, if and only if they are not the root and one empty name |
| FsUtil.NamesAreSeparatorFree | lib/src/fs/fs_util.cc:20-41 | no part but the first has a separator; only "/" has no other part |
| AsyncBlockManagers.AsyncResponse.constructor | lib/src/block/block_manager/async_response.cc:11-19 | waits for each distinct id; an empty request is complete at once |
| AsyncBlockManagers.AsyncResponse.NotifyIfComplete | lib/src/block/block_manager/async_response.cc:32-36 | sets the promise if nothing is waited for |
| AsyncBlockManagers.AsyncResponse.Update | lib/src/block/block_manager/async_response.cc:38-46 | takes a block that is waited for and ignores others; arrived and waited ids partition the request, and the promise is set once |
| AsyncBlockManagers.AsyncBlockManager.Process | lib/src/block/block_manager/async_block_manager.cc:15-30 | every response that waits for the id gets the block, no other changes, and waiting stays the same as being listed |
| AsyncBlockManagers.AsyncBlockManager.GetBlocks | lib/src/block/block_manager/async_block_manager.cc:32-49 | a new response waits for exactly the ids asked for and is listed under each; ids may repeat |
| AsyncBlockManagers.AsyncBlockManager.ProcessAll | lib/src/block/block_manager/async_block_manager.cc:15-30 | over any arrivals, a response collects the first block of each id it waited for, in order of arrival, and is complete if and only if each has arrived |
| AsyncBlockManagers.ResponseIsLookUpIff | lib/src/block/block_manager/async_response.cc:38-46 | a response equals the lookups in the order of the request, if and only if the blocks first arrive in that order |
| AsyncBlockManagers.EveryOrderIff | lib/src/block/block_manager/async_response.cc:43-44 | it does so whatever the order of arrival, if and only if at most one id is asked for |
| AsyncBlockManagers.AskAndWait | lib/src/block/block_manager/async_block_manager.cc:15-49 | a request and arrivals that complete it: the promise holds the first arrivals, and the lookups if and only if they arrive in order |
| AsyncBlockManagers.OrderExample | lib/src/block/block_manager/async_response.cc:43-44 | two blocks that arrive the other way round |
| AsyncBlockManagers.AsyncBlockManager.UpdateAll | lib/src/block/block_manager/async_block_manager.cc:20-27 | every listed response takes the block, even if listed twice |
| AnyOrder.AlwaysReadsIff | lib/src/fs/block_util.cc:114-137 | a file reads as it is stored whatever the order of responses, if and only if at every level each two pieces can be swapped |
| AnyOrder.GetFileContents | lib/src/fs/block_util.cc:114-137 | over a manager that answers in some order, the bytes read are those of the tree with its children in the order in which they came; the stored ones if pieces can be swapped |
| AnyOrder.SameNamesBelow | lib/src/fs/block_fuse.cc:239-357 | with distinct sibling names, a path leads to the same block whatever the order of responses |
| AnyOrder.SameIdsAll | lib/src/fs/block_util.cc:245-270 | the recursive free frees the same ids whatever the order of responses |
| AnyOrder.OneBlockAlwaysReads | lib/src/fs/block_util.cc:307-352 | a file that fits in one block reads as stored whatever the order |
| AnyOrder.OrderedBytesExample | lib/src/fs/block_util.cc:114-137 | two pieces that do not |
| PingCirculation.NextKeepsInv | lib/src/block/block_manager/ping/ping_block_service.cc:33-69 | every step keeps the pings genuine and the conservation law for every id |
| PingCirculation.RunCounts | lib/src/block/block_manager/ping/ping_block_service.cc:33-69 | the counters of the state are the events of the run |
| PingCirculation.CopiesAreConserved | lib/src/block/block_manager/ping/ping_block_service.cc:49-69 | over every run: copies in flight plus drops are registrations, and drops plus a remembered free never exceed frees |
| PingCirculation.OneCopyUntilFreed | lib/src/block/block_manager/ping/track_freed_service.cc:18-32 | registered once and freed at most once: one copy circulates until the drop, and none after |
| PingCirculation.SendingsAreConserved | lib/src/block/block_manager/ping/ping_block_service.cc:62-68 | over every run: pings on the network plus publications are registrations plus recycle checks that found the id not freed, so a block that passes its check is sent again |
| PingCirculation.StoredBlockComesBack | lib/src/block/block_manager/ping/ping_block_service.cc:49-69 | a block with a copy that is not freed can always come back to be published, after at most one recycle check |
| PingCirculation.FreeIsRemembered | lib/src/block/block_manager/ping/track_freed_service.cc:18-32 | a free stays remembered until a drop answers it |
| PingCirculation.PublishedAfterFree | lib/src/block/block_manager/ping/ping_block_service.cc:62-67 | in any run with one registration, a block is published after a free as often as its copy leaves the network: at most once, and once dropped exactly if it was in flight at the free |
| PingCirculation.PublishedAfterFreeExample | lib/src/block/block_manager/ping/ping_block_service.cc:62-67 | a block freed in flight is published all the same |
| PingBlockManagers.TrackFreedService.FreeBlock | lib/src/block/block_manager/ping/track_freed_service.cc:18-21 | remembers the id |
| PingBlockManagers.TrackFreedService.ShouldRecycle | lib/src/block/block_manager/ping/track_freed_service.cc:23-32 | says no exactly once for a remembered id |
| PingBlockManagers.PingBlockManager.CreateBlock | lib/src/block/block_manager/ping/ping_block_manager.cc:17-23 | the block gets a fresh id and is registered with the network |
| PingBlockManagers.PingBlockManager.FreeBlock | lib/src/block/block_manager/ping/ping_block_manager.cc:25-27 | a free step of the network |
| PingBlockManagers.PingBlockManager.GetBlocks | lib/src/block/block_manager/async_block_manager.cc:32-49 | a request for blocks that are in flight |
| PingBlockManagers.PingBlockManager.Receive | lib/src/block/block_manager/ping/ping_block_service.cc:49-65 | replies of others are ignored; one of our own reaches every response that waits for it, freed or not, and no other response changes |
| PingBlockManagers.PingBlockManager.RecycleOrDrop | lib/src/block/block_manager/ping/ping_block_service.cc:66-69 | sends the block again if and only if its id is not remembered as freed |
| PingBlockManagers.PingBlockManager.CompletedRequestsAnswer | lib/src/block/block_manager/ping/ping_block_service.cc:49-69 | a completed request holds one block for each distinct id, with the data it was created with; as a multiset what a map would return, if and only if no id was asked for twice |
| PingBlockManagers.AnswerIsLookUp | lib/src/block/block_manager/async_response.cc:38-46 | blocks collected one for each distinct id are a permutation of the lookups, if and only if the request repeats no id |
| Framing.DrainInTwo | lib/src/ping/ping.cc:92-111 | draining early and going on later gives the replies and the rest of draining once |
| Framing.ChunksDoNotMatter | lib/src/ping/ping.cc:92-111 | however the bytes are cut into chunks, the replies and the rest are the same |
| Framing.PacketsDrain | lib/src/ping/ping.cc:40-90 | well-formed packets one after the other give the replies of each, and leave an incomplete tail |
| Framing.PacketsInChunks | lib/src/ping/ping.cc:40-111 | the two together: well-formed packets in any chunks |
| Framing.ZeroLengthStalls | lib/src/ping/ping.cc:50-66 | a packet with length zero, of another protocol or an ICMP packet that is no echo reply: any number of calls leaves the same bytes, and the loop never ends |
| Framing.StopsIffDrainable | lib/src/ping/ping.cc:108-111 | the drain loop comes to an end, if and only if each packet it reaches can be read and none is empty |
| Framing.SaneFeeds | lib/src/ping/ping.cc:92-111 | a sane stream, in any chunks, lets each loop come to an end |
| Framing.ShortIcmpExample | lib/src/ping/ping.cc:47-72 | a short ICMP packet that is no echo reply is read past its end and taken off, where bytes are there to be read |
| Framing.ZeroLengthExample | lib/src/ping/ping.cc:108-111 | twenty bytes on which the loop never ends |
| Framing.Ping.CheckNotify | lib/src/ping/ping.cc:40-90 | takes one whole packet off the buffer, if there is one, even an empty or short one, and posts its reply, if it is one |
| Framing.Ping.InternalCheckNotify | lib/src/ping/ping.cc:108-111 | on every buffer on which the loop ends, it ends with all whole packets taken off and their replies posted in order |
| Framing.Ping.ReceiveAll | lib/src/ping/ping.cc:92-106 | chunk after chunk, for all chunks on which each loop ends; on a sane stream, posts and keeps what draining the whole stream at once would |
| Framing.IpV4Stream.ReadUnsignedShort | lib/include/pingfs/ping/ip_v4_stream.hpp:27-37 | the next 16 bits, high byte first |
| Framing.IpV4Stream.ReadIpV4 | lib/src/ping/ip_v4.cc:6-40 | total length and protocol of a header without options, which is then read past |
| Framing.IpV4Stream.ReadIcmpHeader | lib/src/ping/icmp_header.cc:5-11 | type, code, identifier and sequence number at their places |
| Framing.DataBuffer.Append | lib/src/ping/data_buffer.cc:19-22 | adds at the end |
| Framing.DataBuffer.Discard | lib/src/ping/data_buffer.cc:14-17 | drops from the front |
| EchoRequests.Checksum | lib/src/ping/echo_request.cc:5-19 | the 32-bit sum of all words with one fold, complemented, in network order, for any body |
| EchoRequests.Serialize | lib/src/ping/echo_request.cc:38-51 | the message, with the checksum bytes the same on hosts of either byte order |
| EchoRoundTrip.HeaderBytes | lib/src/ping/echo_request.cc:38-51 | each field of the message at its place, high byte first, and the body behind them |
| EchoRoundTrip.AnswerIsRead | lib/src/ping/ping.cc:40-90 | the answer to a request is read as one packet that gives back the identifier, the sequence number and the body that were sent |
| EchoRoundTrip.AnswerInChunks | lib/src/ping/ping.cc:40-111 | the same however the answer is cut into chunks, with nothing left over |
| EchoRoundTrip.OnlyRepliesAreRead | lib/src/ping/ping.cc:59-72 | a packet gives a response if and only if it is ICMP with type and code zero |
| EchoRoundTrip.NetworkOrderInMemory | lib/src/ping/echo_request.cc:16-18 | in the memory of a host of either byte order, a number in network order is its high byte, then its low byte |
| EchoRoundTrip.OddBodyIsPadded | lib/src/ping/echo_request.cc:11-14 | a body of odd length counts as if a zero byte came after it |
| EchoRequests.MessageSum | lib/src/ping/echo_request.cc:43-51 | the words of the message sum to the plain sum and the checksum |
| EchoRequests.FoldedIsCongruent | lib/src/ping/echo_request.cc:5-19 | one's complement folding is reduction modulo 65535 to a positive rest |
| EchoRequests.ChecksumValidIff | lib/src/ping/echo_request.cc:5-51 | the receiver's sum is all ones if and only if one fold leaves no carry; otherwise it is one |
| EchoRequests.SumFits | lib/src/ping/echo_request.cc:5-19 | the 32-bit sum does not wrap for any body that fits a datagram |
| EchoRequests.ChecksumExample | lib/src/ping/echo_request.cc:15-15 | a request without body whose checksum is wrong |
| UpdatingIdSuppliers.UpdatingIdSupplier.NextId | lib/src/block/block_manager/id_supplier/updating_id_suppler.cc:14-19 | the id is made of the high bits and the node's own low bits, with 64-bit wrap-around |
| UpdatingIdSuppliers.UpdatingIdSupplier.UpdateIfLessThan | lib/src/block/block_manager/id_supplier/updating_id_suppler.cc:21-28 | leaps over an id with greater high bits |
| UpdatingIdSuppliers.DrawExceedsAllHeardIff | lib/src/block/block_manager/id_supplier/updating_id_suppler.cc:21-28 | after any run, the next id is above a heard one if and only if that one has other high bits or lower low bits; its high bits are never above the counter |
| UpdatingIdSuppliers.DrawExceedsHeardIff | lib/src/block/block_manager/id_supplier/updating_id_suppler.cc:25-25 | the same for one id, in terms of the counter before it is heard |
| UpdatingIdSuppliers.DrawnInSteps | lib/src/block/block_manager/id_supplier/updating_id_suppler.cc:14-28 | ids drawn in a row are 256 apart, and after a greater id is heard the next high bits follow on it |
| UpdatingIdSuppliers.DrawnIdsIncrease | lib/src/block/block_manager/id_supplier/updating_id_suppler.cc:14-28 | the ids one node draws go up, whatever it hears, while the high bits last |
| UpdatingIdSuppliers.NextDrawIsHigherIff | lib/src/block/block_manager/id_supplier/updating_id_suppler.cc:14-19 | the next id is higher if and only if the 56 bits do not start over |
| UpdatingIdSuppliers.NodesDrawApart | lib/src/block/block_manager/id_supplier/updating_id_suppler.cc:6-19 | nodes with different low bits never draw the same id |

## Left out

- Sockets, the event loop, name resolution, the FUSE callbacks, command-line programs and logging: input and output without an algorithm.
- `readdir`, and the conversion of mode bits: listing is the search without a name, and the conversion is a finite table.
- Clocks, owners and permission bits: they are carried as opaque numbers (`Stat.perms`, `Stat.time`).
- The encoding of blocks as message bodies: taken to be injective, so pings carry blocks.
- The distributed file system, spoofed and duplicated pings, and the queue that limits the rate: they need delays and threads. `CopiesAreConserved` allows repeated registration.
- Threads inside one file system object: the program does not protect against them. In the ping manager, locked parts are single steps, and requests, frees and arrivals interleave in any order between them.
- Loss and duplication on the network: an event can only take a ping that is in flight, and leaves all others there.
- The inheritance between the file system and its checkpointing subclass, and between the ping services: each pair is one class here, so plain and overriding calls have different names (`Mkdir`, `RevertibleMkdir`). `Perform` makes the plain calls, `Dispatch` the overriding ones; a file system with checkpoints is only ever called through the latter.
- The floating-point logarithm in the depth (`lib/src/fs/block_util.cc:323`): it is the exact integer depth, as if no rounding took place.
- The empty path, on which the program throws: `Path` excludes it.
- Wrap-around of offset plus size when reading: these are unbounded numbers.
- Packets with header options, which the program does not look for; and what it reads past the end of the buffer, which is undefined. `Drainable` says where a buffer has no such packet.
- `BlockFuse.RevertibleRmdir`: the program returns no value after a revert, shown here as `None`.
- FsRefinement.RunRefines: leaves out runs with paths "//name"; `RunRefinesIff` has the exact condition for all runs.
- RevertibleRuns.RevRunRefines: leaves out runs with paths "//name"; `RevRunRefinesIff` has the exact condition for all runs.
- RevertibleRuns.BareRunKeepsTrees: a sufficient condition; the exact one is `SavedSurvivesIff`.
- RevertibleRuns.CheckpointSurvivesIff: only for runs without checkpoint calls, as a revert can bring older blocks back below a target; `SavedSurvivesIff` has all runs.
- Checkpoints.RunFreesOlder: likewise only for runs without checkpoint calls.
- Checkpoints.CheckpointBreaksIff: one call right after the checkpoint; `SavedSurvivesIff` has all runs.
- FileSystem.BlockFuse.DispatchAll: only for runs whose reverts go back to trees that lost no block (`Recovers`); the program would follow missing blocks otherwise.
- FileSystem.SaveRunAndRevert: the same of the reverts among its calls; of its own revert it says exactly when the tree is whole.
- BlockManager.MemoryBlockManager.CreateBlock: does not throw, as the program does after 2^64 - 1 blocks, since ids are unbounded here.
- BlockManager.MemoryBlockManager.GetBlocks: only for stored ids, since the program would insert a null entry otherwise; its callers all meet that.
- Framing.Ping.CheckNotify: not where the program reads past the end of the buffer, or takes a reply for shorter than its two headers.
- Framing.Ping.InternalCheckNotify: only for buffers on which the loop ends; by `StopsIffDrainable` these are the `Drainable` ones.
- Framing.Ping.ReceiveAll: likewise for each chunk, as a method that need not end has no postcondition to meet.
