# Container exercises in Dafny

A model of the core of a set of small C++ container exercises, with proofs of
what each container promises:

- **Threaded search-tree map** (`tasks/tree/iterators/map.hpp`). This is an
  unbalanced binary search tree. An empty right link may hold a *thread* to
  the in-order successor, marked by the tag `r_is_thr_`.
  - A lazy rebuild (`threads_ok_`, `EnsureThreaded`, `BuildThreads`) restores
    the threads. A forward iterator walks along them.
  - `threaded_tree.dfy` gives the tree. A right slot is
    `Empty | Child(subtree) | Thread(successor key) | Shadowed(subtree)`. The
    last case is a tag left set over an owned node.
  - `threaded_map.dfy` gives the map with three defects of the code corrected.
  - `threaded_as_written.dfy` gives the code as written, with one
    counterexample for each defect (see Findings).
- **Two plain search-tree maps.**
  - `tasks/tree/bst/map.hpp` splices the successor node into place on erase
    (`splice_map.dfy`).
  - `tasks/tree/NTree/filesystem/map/map.hpp` tracks the parent and copies the
    successor's key and value on erase (`copy_map.dfy`).
  - Both are proved against a reference tree in `binary_tree.dfy`. Their
    contents are a sorted association list (`assoc.dfy`).
- **Singly linked list** (`tasks/lists/forward/forward_list.hpp`), in
  `forward_list.dfy`. The node chain is the sequence of its values. An
  iterator is a position or `End`.
- **Growable array** (`tasks/vector/vector/vector.cpp`), in `vector.dfy`. It
  tracks the elements and the capacity.
  - The initial capacity is 10. `vector.cpp` uses `kInitialCapacity`, which
    is declared nowhere. The header declares `DefaultCapacity = 10`
    (`tasks/vector/vector/vector.hpp:61`).
- **Path logic of the toy file system** (`tasks/tree/NTree/filesystem/fs.cpp`).
  - `fs_path.dfy` has the splitter and the joiner.
  - `fs_tree.dfy` models the directory tree as the set of paths of its
    directories and files, plus the current directory. Each path is a
    sequence of names from the root.
  - `merge.dfy` has the merge loop of `ListFiles`. `str_order.dfy` has
    `std::string`'s order.
  - `fs.cpp` does not agree with `fs.hpp`. `fs.hpp` declares neither
    `EnsureInit`, `WalkTo`, `JoinPath` nor `BuildCwd`. The model follows
    `fs.cpp`.

Modelling conventions:

- Every mutation is a function from the old value to the new one.
- A thrown exception is an `Err` result.
- Keys of the maps are `int` ordered by `<`. Values are generic.
- `operator[]` takes the default value `Value{}` as a parameter `dflt`.
- A `const` member that mutates through `mutable` state returns the updated
  map as well as its result. `Begin`, `End` and `Find` of the threaded map do
  this, because they rebuild the threads.

## Model

| member | source | states |
|---|---|---|
| ThreadedMap.Init | tasks/tree/iterators/map.hpp:66-67 | The new map is empty and valid, with the flag saying the (absent) threads are good. |
| ThreadedMap.Values | tasks/tree/iterators/map.hpp:125-134 | The snapshot has `Size()` entries. It strictly ascends by key for `inc` and strictly descends otherwise. |
| ThreadedMap.ValuesReversed | tasks/tree/iterators/map.hpp:277-297 | `Values(false)` is exactly the reverse of `Values(true)`. |
| ThreadedMap.Insert | tasks/tree/iterators/map.hpp:136-159 | The contents become the old contents with the key set to the value. For a present key, size, tree shape and flag are unchanged. For an absent key, size grows by one and the flag is cleared. |
| ThreadedMap.InsertAll | tasks/tree/iterators/map.hpp:161-165 | The list insert has the effect of inserting each pair in order. |
| ThreadedMap.Index | tasks/tree/iterators/map.hpp:83-106 | A present key leaves the map as it is and yields its value. An absent key is added with the default value, size grows by one and the flag is cleared. |
| ThreadedMap.Erase | tasks/tree/iterators/map.hpp:167-233 | It throws exactly when the key is absent. Otherwise the contents lose exactly that key, size drops by one and the flag is cleared. |
| ThreadedMap.Clear | tasks/tree/iterators/map.hpp:235-240 | The root is null, the size is 0 and the flag is set. |
| ThreadedMap.Swap | tasks/tree/iterators/map.hpp:115-123 | The two maps exchange contents and sizes, and both flags are cleared. |
| ThreadedMap.EnsureThreaded | tasks/tree/iterators/map.hpp:338-343 | Afterwards the threads are complete and the flag is set. Child links and size are unchanged. A map whose flag is already set is untouched. |
| ThreadedTree.Reset | tasks/tree/iterators/map.hpp:299-315 | Clearing the threads leaves no tag set. The owned children are unchanged, and so is a search tree's well-formedness. |
| ThreadedTree.ResetRight | tasks/tree/iterators/map.hpp:310-313 | A right slot becomes null or an owned child with no tag below it, over the same owned subtree. |
| ThreadedTree.Link | tasks/tree/iterators/map.hpp:317-336 | The threading walk keeps every child link. On a tree without tags, every null right slot then threads to the node visited next, and the last one to the successor given from outside. |
| ThreadedTree.LinkRight | tasks/tree/iterators/map.hpp:329-332 | A null right slot gets a thread to the next node, or stays null when there is none. An owned child is threaded recursively. |
| ThreadedTree.BuildThreads | tasks/tree/iterators/map.hpp:317-336 | The rebuild threads every null right link to the in-order successor and leaves the maximum's link null. It changes no child link. |
| ThreadedTree.BuildThreadsKeeps | tasks/tree/iterators/map.hpp:317-336 | Rebuilding threads that are already complete leaves the tree as it is. |
| ThreadedTree.InsertAtPlain | tasks/tree/iterators/map.hpp:136-159 | The corrected insertion descent acts on the owned children as the reference search-tree insertion, and keeps the tree well formed. |
| ThreadedTree.InsertAtOverwrite | tasks/tree/iterators/map.hpp:151-153 | Overwriting a key the descent finds changes no key and no slot, so complete threads stay complete. |
| ThreadedTree.CutMin | tasks/tree/iterators/map.hpp:212-219 | The successor search yields the least entry of the right subtree. What is left is that subtree with its least node removed, still well formed. |
| ThreadedTree.Unlink | tasks/tree/iterators/map.hpp:188-233 | Unlinking a node by the four cases of `Erase` leaves the left contents followed by the right contents, as the reference root removal does. |
| ThreadedTree.EraseAtPlain | tasks/tree/iterators/map.hpp:167-233 | The corrected erase finds a node exactly when the key is present. It then acts on the owned children as the reference deletion and keeps the tree well formed. |
| ThreadedTree.ThreadTargets | tasks/tree/iterators/map.hpp:329-332 | In a threaded tree, the i-th node's right slot is either a child or a thread to the (i+1)-th key. The last node's slot is null. |
| ThreadedTree.StepInside | tasks/tree/iterators/map.hpp:37-51 | One `++` from the i-th node of a threaded tree reaches the (i+1)-th node, or the successor given from outside after the last one. |
| ThreadedTree.NodeOfFinds | tasks/tree/iterators/map.hpp:242-258 | The descent over owned links stops on a node exactly when the key is present. That node holds the key and its value. |
| ThreadedMap.Begin | tasks/tree/iterators/map.hpp:69-76 | Threads are rebuilt. The iterator is at the least key, or at `End` for an empty map. |
| ThreadedMap.End | tasks/tree/iterators/map.hpp:78-81 | Threads are rebuilt and the iterator is `End`. |
| ThreadedMap.Find | tasks/tree/iterators/map.hpp:242-258 | Threads are rebuilt. The iterator is at the key when it is present and `End` otherwise. |
| ThreadedMap.Deref | tasks/tree/iterators/map.hpp:30-32 | `*it` is the iterator's key paired with the value the contents hold for it. |
| ThreadedMap.Next | tasks/tree/iterators/map.hpp:37-51 | `++` on `End` stays at `End`. Otherwise it moves to the least larger key, or to `End` when there is none. |
| ThreadedMap.NextIsSuccessor | tasks/tree/iterators/map.hpp:37-51 | `++` from the i-th position gives the (i+1)-th position. |
| ThreadedMap.IterationVisitsInOrder | tasks/tree/iterators/map.hpp:37-76 | Stepping i times from `Begin()` reaches the i-th entry of `Values(true)`, and reaches `End` after `Size()` steps. |
| ThreadedMap.CollectByIteration | tasks/tree/iterators/map.hpp:37-76 | A loop from `Begin()` to `End()` collects exactly `Values(true)`. |
| ThreadedAsWritten.InsertDescent | tasks/tree/iterators/map.hpp:139-155 | While no tag is set, the insertion descent as written equals the corrected one. |
| ThreadedAsWritten.Insert | tasks/tree/iterators/map.hpp:136-159 | On a tag-free valid map, the insertion as written behaves as the corrected `ThreadedMap.Insert`. |
| ThreadedAsWritten.Index | tasks/tree/iterators/map.hpp:83-106 | On a tag-free valid map, `operator[]` as written behaves as the corrected `ThreadedMap.Index`. |
| ThreadedAsWritten.EraseDescent | tasks/tree/iterators/map.hpp:170-186 | While no tag is set, the erase descent as written removes what the corrected one removes. |
| ThreadedAsWritten.Erase | tasks/tree/iterators/map.hpp:167-233 | On a tag-free valid map, erasure as written behaves as the corrected `ThreadedMap.Erase`. |
| ThreadedAsWritten.ResetWalk | tasks/tree/iterators/map.hpp:299-315 | A reset walk that finishes has cleared a tag at least once for each node on its stack and for the node it starts at. |
| ThreadedAsWritten.ResetWalkMonotone | tasks/tree/iterators/map.hpp:299-315 | A larger step budget never changes the outcome of a walk that finished. |
| ThreadedAsWritten.ResetWalkTagFree | tasks/tree/iterators/map.hpp:299-315 | On a tag-free search tree, the reset walk over the raw pointers ends after 2n+1 steps. It has visited the keys in ascending order. |
| ThreadedAsWritten.WalkSubtree | tasks/tree/iterators/map.hpp:305-314 | Walking a tag-free subtree from its root above a stack emits its keys in order, two steps per node. It then carries on with the stack as it was. |
| ThreadedAsWritten.Cycle | tasks/tree/iterators/map.hpp:305-314 | Whenever a node's left child has no left child and a stale right pointer back to that node, the walk from either of them cycles above any stack. No step budget is enough. |
| ThreadedAsWritten.ReachThreadedPair | tasks/tree/iterators/map.hpp:69-76 | After inserting 3 and 1, the first `Begin()` still works. The tree then has one thread, from 1 to 3. |
| ThreadedAsWritten.InsertThroughThreadHidesNode | tasks/tree/iterators/map.hpp:144-147 | Then inserting 2 gives size 3, but the contents are still [1, 3]. The corrected insert lists [1, 2, 3]. |
| ThreadedAsWritten.HiddenNodeReturnsOnRebuild | tasks/tree/iterators/map.hpp:305-314 | The next rebuild's reset walk follows `r_` into the hidden node 2, clears its tag and finishes, having visited 1, 2 and 3. |
| ThreadedAsWritten.RebuildNeverEnds | tasks/tree/iterators/map.hpp:312-313 | Then inserting 5 makes the reset walk of the next `Begin()` never finish. |
| ThreadedAsWritten.EraseThroughThreadRemovesOther | tasks/tree/iterators/map.hpp:174-186 | Then `Erase(2)` removes 1 instead of throwing. The corrected erase throws. |
| BinaryTree.InsertContents | tasks/tree/bst/map.hpp:73-81 | Inserting by descent into a search tree overwrites or adds exactly the key in the in-order contents, and keeps the ordering. |
| BinaryTree.EraseContents | tasks/tree/bst/map.hpp:89-128 | Erasing by descent removes exactly the key from the in-order contents, and keeps the ordering. |
| BinaryTree.EraseRootContents | tasks/tree/bst/map.hpp:96-127 | Removing a root with the classic three cases leaves the left contents followed by the right contents. |
| BinaryTree.ContainsIff | tasks/tree/bst/map.hpp:136-148 | The search descent finds a key exactly when the in-order contents hold it. |
| BinaryTree.SearchFinds | tasks/tree/bst/map.hpp:166-178 | The descent path ends on a null link exactly when the key is absent. Otherwise it ends on the node holding the key. |
| BinaryTree.LookupAtSearch | tasks/tree/bst/map.hpp:39-46 | The node the descent ends on carries the value the contents hold for the key. |
| BinaryTree.ReplaceAtSearchIsInsert | tasks/tree/bst/map.hpp:73-81 | Writing a new node or value at the end of the descent path is the reference insertion. |
| BinaryTree.ReplaceAtSearchIsErase | tasks/tree/bst/map.hpp:89-128 | Replacing the node at the end of the descent path by its root-removal is the reference deletion. |
| BinaryTree.LeftSpineIsMin | tasks/tree/bst/map.hpp:109-113 | Following left links from a node ends on its least entry. Unlinking it there is the reference minimum removal. |
| BinaryTree.RevInorderIsReverse | tasks/tree/bst/map.hpp:180-196 | The right-first traversal is the reverse of the left-first traversal. |
| Assoc.PutLookup | tasks/tree/bst/map.hpp:73-81 | After an insert, the key maps to the new value and every other key keeps its value. |
| Assoc.RemoveLookup | tasks/tree/bst/map.hpp:89-128 | After an erase, the key is absent and every other key keeps its value. |
| Assoc.PutLength | tasks/tree/bst/map.hpp:73-81 | An insert adds one entry exactly when the key was absent. |
| Assoc.RemoveLength | tasks/tree/bst/map.hpp:89-128 | An erase drops one entry exactly when the key was present. |
| SpliceMap.Empty | tasks/tree/bst/map.hpp:16-17 | The new map is valid and empty. |
| SpliceMap.Values | tasks/tree/bst/map.hpp:62-71 | The snapshot has `Size()` entries, strictly ascending or strictly descending by key. |
| SpliceMap.ValuesReversed | tasks/tree/bst/map.hpp:180-196 | `Values(false)` is the reverse of `Values(true)`. |
| SpliceMap.Spot | tasks/tree/bst/map.hpp:166-178 | The link found is null exactly when the key is absent. Otherwise it holds the node with that key. |
| SpliceMap.Find | tasks/tree/bst/map.hpp:136-148 | True exactly when the key is present. |
| SpliceMap.Insert | tasks/tree/bst/map.hpp:73-81 | The contents get the key set to the value. The size grows by one exactly for a new key. |
| SpliceMap.InsertAll | tasks/tree/bst/map.hpp:83-87 | The list insert has the effect of inserting each pair in order. |
| SpliceMap.Index | tasks/tree/bst/map.hpp:39-46 | A present key changes nothing and yields its value. An absent key is added with the default value and the size grows by one. |
| SpliceMap.Splice | tasks/tree/bst/map.hpp:96-127 | The pointer surgery at the erased node covers no left child, no right child, successor as direct right child, and deep successor. It equals the reference root removal. |
| SpliceMap.Erase | tasks/tree/bst/map.hpp:89-128 | It throws `KeyNotFound` exactly when the key is absent. Otherwise exactly that key goes and the size drops by one. |
| SpliceMap.Clear | tasks/tree/bst/map.hpp:130-134 | The map is empty with size 0. |
| SpliceMap.Swap | tasks/tree/bst/map.hpp:56-60 | The two maps exchange contents and sizes. |
| SpliceMap.MoveConstruct | tasks/tree/bst/map.hpp:22-25 | The new map has the source's contents and size. The source is left empty with count 0. |
| SpliceMap.MoveAssign | tasks/tree/bst/map.hpp:27-37 | Self-assignment changes nothing. Otherwise the target takes the source's contents and size, and the source is left empty with count 0. |
| CopyMap.IsEmpty | tasks/tree/NTree/filesystem/map/map.hpp:45-47 | True exactly when the size is 0, and exactly when the snapshot is empty. |
| CopyMap.Values | tasks/tree/NTree/filesystem/map/map.hpp:61-70 | The snapshot has `Size()` entries, strictly ascending or strictly descending by key. |
| CopyMap.ValuesReversed | tasks/tree/NTree/filesystem/map/map.hpp:182-198 | `Values(false)` is the reverse of `Values(true)`. |
| CopyMap.Find | tasks/tree/NTree/filesystem/map/map.hpp:158-170 | True exactly when the key is present. |
| CopyMap.Index | tasks/tree/NTree/filesystem/map/map.hpp:29-43 | A present key changes nothing and yields its value. An absent key is added with `Value()` and the size grows by one. |
| CopyMap.Insert | tasks/tree/NTree/filesystem/map/map.hpp:72-86 | The contents get the key set to the value. The size grows by one exactly for a new key. |
| CopyMap.InsertAll | tasks/tree/NTree/filesystem/map/map.hpp:88-92 | The list insert has the effect of inserting each pair in order. |
| CopyMap.Unlink | tasks/tree/NTree/filesystem/map/map.hpp:114-148 | Leaf, single child, and two children (successor's key and value copied in, successor unlinked from its parent): what remains holds the left contents then the right contents. |
| CopyMap.Erase | tasks/tree/NTree/filesystem/map/map.hpp:94-150 | It throws exactly when the key is absent. Otherwise exactly that key goes and the size drops by one. |
| CopyMap.Clear | tasks/tree/NTree/filesystem/map/map.hpp:152-156 | The map is empty with size 0. |
| CopyMap.Swap | tasks/tree/NTree/filesystem/map/map.hpp:53-59 | The two maps exchange contents and sizes. |
| ForwardList.Init | tasks/lists/forward/forward_list.hpp:101-102 | The new list is empty. |
| ForwardList.Sized | tasks/lists/forward/forward_list.hpp:104-108 | `ForwardList(sz)` holds `sz` default values. |
| ForwardList.FromValues | tasks/lists/forward/forward_list.hpp:110-115 | The initializer-list constructor keeps the values in their order. |
| ForwardList.Copy | tasks/lists/forward/forward_list.hpp:117-131 | The copy holds the source's values in the same order, although it is built through a reversed scratch list. |
| ForwardList.CopyAssign | tasks/lists/forward/forward_list.hpp:133-151 | Self-assignment changes nothing. Otherwise the target ends up holding the source's values in order. |
| ForwardList.PushFront | tasks/lists/forward/forward_list.hpp:224-232 | The value becomes the head, the rest is unchanged and the size grows by one. |
| ForwardList.Front | tasks/lists/forward/forward_list.hpp:160-165 | It throws `ListIsEmpty` exactly on an empty list, and otherwise yields the head. |
| ForwardList.PopFront | tasks/lists/forward/forward_list.hpp:234-243 | It throws `ListIsEmpty` exactly on an empty list. Otherwise it drops the head and the size drops by one. |
| ForwardList.PushPopInverse | tasks/lists/forward/forward_list.hpp:224-243 | `PopFront` undoes `PushFront`. Pushing back the front of a non-empty list after popping it restores the list. |
| ForwardList.InsertAfter | tasks/lists/forward/forward_list.hpp:191-200 | At `End` it is `PushFront`. Otherwise the value lands right after the position, everything else keeps its place, and the size grows by one. |
| ForwardList.EraseAfter | tasks/lists/forward/forward_list.hpp:180-189 | At `End` or at the last node, nothing changes. Otherwise exactly the next element goes and the size drops by one. |
| ForwardList.EraseAfterInsertAfter | tasks/lists/forward/forward_list.hpp:180-200 | Erasing after a position undoes inserting after it. |
| ForwardList.Find | tasks/lists/forward/forward_list.hpp:202-211 | The iterator is at the first element equal to the value, or `End` when none is. |
| ForwardList.Clear | tasks/lists/forward/forward_list.hpp:213-222 | The list is empty with size 0. |
| ForwardList.Swap | tasks/lists/forward/forward_list.hpp:175-178 | The two lists exchange contents and sizes. |
| ForwardList.Begin | tasks/lists/forward/forward_list.hpp:152-154 | The iterator is at the head, and it is `End` exactly for an empty list. |
| ForwardList.Deref | tasks/lists/forward/forward_list.hpp:55-60 | Dereferencing `End` throws. Otherwise it yields the element at the position. |
| ForwardList.Next | tasks/lists/forward/forward_list.hpp:69-74 | `++` on `End` stays at `End`. Otherwise it moves one element on, or to `End` past the last. |
| ForwardList.IterationVisitsInOrder | tasks/lists/forward/forward_list.hpp:69-74 | Stepping n times from `Begin()` reaches the n-th element, and reaches `End` after `Size()` steps. |
| ForwardList.EndStays | tasks/lists/forward/forward_list.hpp:69-74 | Any number of steps from `End` stays at `End`. |
| Vector.Init | tasks/vector/vector/vector.cpp:19-20 | No elements and capacity 0. |
| Vector.Sized | tasks/vector/vector/vector.cpp:23-32 | `count` copies of the value, and capacity exactly `count`. |
| Vector.FromValues | tasks/vector/vector/vector.cpp:98-108 | The values in order. Capacity 0 for an empty list, otherwise the larger of 10 and the list's length. |
| Vector.Reserve | tasks/vector/vector/vector.cpp:146-158 | It does nothing for 0 or for no more than the current capacity. Otherwise it sets the capacity and keeps the elements. |
| Vector.GrowForOne | tasks/vector/vector/vector.cpp:204-209 | The growth step before an append goes from 0 to 10, doubles when full, and otherwise changes nothing. There is then room for one more. |
| Vector.PushBack | tasks/vector/vector/vector.cpp:204-224 | `PushBack` and `EmplaceBack` append the value after the growth step. |
| Vector.PopBack | tasks/vector/vector/vector.cpp:227-233 | On an empty vector nothing changes. Otherwise exactly the last element goes. The capacity is kept. |
| Vector.PopBackPushBack | tasks/vector/vector/vector.cpp:204-233 | `PopBack` undoes `PushBack` apart from the growth step. |
| Vector.PushBackKeepsShape | tasks/vector/vector/vector.cpp:204-212 | A capacity that is 0 or 10 times a power of two is 10 times a power of two after an append. So a vector grown only by appends never has any other capacity. |
| Vector.Clear | tasks/vector/vector/vector.cpp:161-166 | No elements, and the capacity is kept. |
| Vector.Insert | tasks/vector/vector/vector.cpp:169-185 | A position past the end changes nothing. Otherwise the value lands at the position, later elements shift right by one, and the capacity follows the growth step. |
| Vector.Erase | tasks/vector/vector/vector.cpp:188-201 | It does nothing unless `b < e`, `b < size` and `e <= size`. Otherwise it removes `[b, e)`, keeps the order of the rest and the capacity, and the size drops by `e - b`. |
| Vector.InsertThenErase | tasks/vector/vector/vector.cpp:169-201 | Erasing the one element just inserted gives the elements back. |
| Vector.Resize | tasks/vector/vector/vector.cpp:236-255 | Shrinking truncates and keeps the capacity. Growing keeps the prefix and fills with the value. When the count exceeds the capacity, the new capacity is the least doubling of the current capacity (or 10) that holds the count. |
| Vector.CopyConstruct | tasks/vector/vector/vector.cpp:35-44 | An element-wise copy, with capacity equal to the source's size. |
| Vector.CopyAssign | tasks/vector/vector/vector.cpp:47-70 | An element-wise copy. The capacity becomes the source's size only when the source does not fit; otherwise it is kept. |
| Vector.MoveConstruct | tasks/vector/vector/vector.cpp:73-77 | The buffer, size and capacity change hands. The source is left with no elements and capacity 0. |
| Vector.MoveAssign | tasks/vector/vector/vector.cpp:80-95 | Self-assignment changes nothing. Otherwise the same as the move constructor. |
| FsPath.Split | tasks/tree/NTree/filesystem/fs.cpp:28-45 | Only non-empty pieces free of separators. Laid end to end, they are the input without its separators. |
| FsPath.JoinPath | tasks/tree/NTree/filesystem/fs.cpp:47-57 | `"/"` for no names, otherwise `"/" + name` for each name. It always starts with `/`. |
| FsPath.SplitJoinPath | tasks/tree/NTree/filesystem/fs.cpp:28-57 | Splitting a joined path gives back its names. |
| FsPath.SplitAtSlash | tasks/tree/NTree/filesystem/fs.cpp:28-45 | Splitting `a + "/" + b` splits `a` and `b` independently. |
| FsTree.Init | tasks/tree/NTree/filesystem/fs.cpp:9-17 | The lazily created file system is a root alone, which is also the current directory. |
| FsTree.AddChild | tasks/tree/NTree/filesystem/fs.cpp:86-96 | Adding a named child to an existing directory keeps the tree closed under parents. |
| FsTree.Walk | tasks/tree/NTree/filesystem/fs.cpp:125-153 | A successful walk ends on an existing directory. A failure names one of the path's parts. |
| FsTree.WalkIgnoresDot | tasks/tree/NTree/filesystem/fs.cpp:126-128 | `.` leaves the directory unchanged. |
| FsTree.DotDot | tasks/tree/NTree/filesystem/fs.cpp:129-133 | `..` after a child name returns to where the walk was, and `..` at the root stays at the root. |
| FsTree.WalkAlong | tasks/tree/NTree/filesystem/fs.cpp:135-146 | Walking down existing plain names reaches the directory they name. |
| FsTree.WalkTo | tasks/tree/NTree/filesystem/fs.cpp:59-103 | A result is an existing or newly created directory, and nothing is removed. Without `allow_create` nothing is created. With both flags it cannot fail. A failure names a missing part. |
| FsTree.WalkToWithoutCreate | tasks/tree/NTree/filesystem/fs.cpp:59-103 | Without creation, `WalkTo` is the plain walk. |
| FsTree.WalkToExisting | tasks/tree/NTree/filesystem/fs.cpp:72-83 | Walking down existing plain names creates nothing, whatever the flags. |
| FsTree.WalkToPlain | tasks/tree/NTree/filesystem/fs.cpp:72-99 | Without creation, a walk down plain names succeeds exactly when the directory they name exists. |
| FsTree.WalkToCreatesAll | tasks/tree/NTree/filesystem/fs.cpp:84-90 | With `create_parents`, every missing directory on the way is created and nothing else. |
| FsTree.WalkToCreatesLast | tasks/tree/NTree/filesystem/fs.cpp:91-99 | With `allow_create` alone, only a missing last name is created. The rest of the walk must succeed without creating. |
| FsTree.ResolveDir | tasks/tree/NTree/filesystem/fs.cpp:105-116 | `""` and `"."` give the current directory. Otherwise the result exists, only directories are added, and the current directory and files are unchanged. |
| FsTree.ResolveDirConst | tasks/tree/NTree/filesystem/fs.cpp:118-155 | `""` and `"."` give the current directory. A result always exists. |
| FsTree.ResolveDirWithoutCreate | tasks/tree/NTree/filesystem/fs.cpp:105-155 | `ResolveDir` without creation agrees with `ResolveDirConst`. |
| FsTree.AbsoluteIgnoresCwd | tasks/tree/NTree/filesystem/fs.cpp:123 | A path starting with `/` resolves the same from any current directory. |
| FsTree.RelativeIsCwdJoined | tasks/tree/NTree/filesystem/fs.cpp:118-124 | A relative path resolves as the current directory's absolute path, then `/`, then the path. |
| FsTree.ChangeDir | tasks/tree/NTree/filesystem/fs.cpp:170-213 | `/` goes to the root, and `""` and `"."` stay. Success changes only the current directory. |
| FsTree.ChangeDirResolves | tasks/tree/NTree/filesystem/fs.cpp:170-213 | `ChangeDir` moves to what `ResolveDirConst` finds, and throws what it throws. |
| FsTree.ChunksReversed | tasks/tree/NTree/filesystem/fs.cpp:157-165 | The parent-chain climb collects the names leaf first. |
| FsTree.BuildCwd | tasks/tree/NTree/filesystem/fs.cpp:157-168 | The current directory's names, root first, joined. `"/"` exactly at the root. |
| FsTree.ChangeDirToCwd | tasks/tree/NTree/filesystem/fs.cpp:157-213 | Changing to the printed current directory stays there. |
| FsTree.MakeDir | tasks/tree/NTree/filesystem/fs.cpp:251-285 | Only directories are added, and the current directory and files are unchanged. With `-p` it cannot fail. |
| FsTree.MakeDirExisting | tasks/tree/NTree/filesystem/fs.cpp:266-284 | Making an existing directory changes nothing. |
| FsTree.MakeDirMissingParent | tasks/tree/NTree/filesystem/fs.cpp:276-278 | Without `-p`, a missing intermediate directory throws. |
| FsTree.MakeDirCreatesAll | tasks/tree/NTree/filesystem/fs.cpp:262-265 | With `-p`, every missing directory on the path is created and nothing else. |
| FsTree.MakeDirUsesParent | tasks/tree/NTree/filesystem/fs.cpp:266-284 | Without `-p`, the one new directory is the last name under the directory `ParentForPath` finds. |
| FsTree.MakeDirDotDot | tasks/tree/NTree/filesystem/fs.cpp:266-274 | `MakeDir("..")` creates a child literally named `..`, because the single-name branch does not treat `..` as special. |
| FsTree.ParentForPath | tasks/tree/NTree/filesystem/fs.cpp:296-306 | A path with no names gives the current directory and an empty name. Otherwise it gives an existing directory and a proper name. |
| FsTree.ParentForPathPlain | tasks/tree/NTree/filesystem/fs.cpp:296-306 | For plain names, it succeeds exactly when the parent exists, and the parent joined with the last name is the whole path. |
| FsTree.ListFiles | tasks/tree/NTree/filesystem/fs.cpp:220-249 | It fails exactly when the path does not resolve. Otherwise the listing holds exactly the subdirectory and file names, in ascending order. |
| Merging.Merge | tasks/tree/NTree/filesystem/fs.cpp:229-248 | The output is a permutation of both lists together. When both ascend, it is in ascending order. |
| StrOrder.SortedNames | tasks/tree/NTree/filesystem/fs.cpp:229-230 | A name map's keys come out strictly ascending under `std::string`'s order, each exactly once. |

## Left out

- Console output: `PWD`, `ShowFileContent`, `FindFile` and `DfsPrintMatches` print. `ListFiles` returns its names instead of printing them.
- File contents, `CreateFile`, `WriteToFile` and `RemoveFile` in `fs.cpp`: they are string handling behind a header that does not match them, outside the path logic.
- `tasks/bash/bash/solution.py`: an operating-system walk with argument parsing.
- Memory management: placement new, `::operator delete`, `DestroyDiscard`, the destructors, `Drop`, `ClearTree` and `DeleteSubtree`. Values replace pointers. As written, `Drop` skips a node hidden under a set tag, as `GoIn` does, so a `Clear` or destruction before the next rebuild leaks that node.
- Iterator invalidation after a mutation: an iterator here is a key or a position, never a dangling pointer.
- The `std::mutex` and the undeclared `Reallocate` in `vector.hpp`: nothing uses them.
- `Vector` `operator[]`, `Front`, `Back`, `Data`: they do not check bounds, so out of range they are undefined behaviour rather than behaviour to model.
- `size_t` overflow: sizes and capacities are unbounded naturals, and `capacity_ * 2` never wraps.
- The postfix `++` operators: each returns a copy and applies the prefix `++`, which is modelled.
- Comparator genericity, the `static_assert` in `Swap` and the `std::swap` overloads. Keys are `int` under `<`, and names use `std::string`'s `<`.
- Exception message text: errors are tagged results (`KeyNotFound`, `ListIsEmpty`, `DerefEnd`, `NoSuchEntry`, `NotADirectory`).
- ThreadedMap.Deref: `*it` on `End()` reads through a null pointer in the source, which is undefined behaviour, so the model requires a node iterator.
- Thread-pointer identity: a thread refers to its successor by key, which identifies a node in a search tree.
- ThreadedAsWritten.ResetWalk: the as-written reset walk is given a step budget, because it need not terminate. Lemmas state the budget that suffices (2n+1) or that none does.
- FsTree.Walk: the `"Not a directory: "` message of a failed step onto a file is the error kind `NotADirectory`. `WalkTo` has no such case and reports `NoSuchEntry`, as the code does.
- FsTree.MakeDirDotDot: `MakeDir("..")` without `-p` creates a directory named `..` that no walk can reach. This is modelled as written; no intended behaviour is stated.

## Findings

| source | as written | input that shows it | evidently intended | confidence | as-written member | corrected member |
|---|---|---|---|---|---|---|
| tasks/tree/iterators/map.hpp:91-94, 144-147 | An insert that meets a threaded right slot writes the new node into `r_` but leaves `r_is_thr_` set. `GoIn`, `GoDe` and `Drop` skip it until the next rebuild, whose `ResetThreadFlags` follows `r_` and clears the tag. | Insert 3, insert 1, `Begin()`, insert 2: `Size()` is 3 but `Values(true)` is [1, 3] until the next `Begin()`, `End()` or `Find`. | The new node becomes an owned child and the tag is cleared. | not executed | ThreadedAsWritten.InsertThroughThreadHidesNode | ThreadedMap.Insert |
| tasks/tree/iterators/map.hpp:299-315, 329 | `ResetThreadFlags` clears the tags but keeps the thread pointers and follows them. `BuildThreads` tests `r_ == nullptr` and never re-threads a stale link. | Insert 3, insert 1, `Begin()`, insert 5, `Begin()`: the reset walk cycles between 3 and 1 forever. | Resetting a thread also nulls the pointer and does not follow it. | not executed | ThreadedAsWritten.RebuildNeverEnds | ThreadedMap.EnsureThreaded |
| tasks/tree/iterators/map.hpp:174-186 | Erase's descent breaks on a threaded slot with `n` still at a node of another key. The not-found test sees a non-null `n`, and that node is deleted. | Insert 3, insert 1, `Begin()`, `Erase(2)`: key 1 is removed and nothing is thrown. | A thread means the key is absent, so `Erase` throws. | not executed | ThreadedAsWritten.EraseThroughThreadRemovesOther | ThreadedMap.Erase |
