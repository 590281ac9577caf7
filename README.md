# halfwit bisection, modelled in Dafny

halfwit finds which files in a set make a test command fail. It assumes that
one or more files ("dominant" objects) each cause the failure on their own and
that all other files ("recessive" objects) are harmless. The search runs the
test on a batch of files. A passing batch is cleared. A failing batch is halved
and both halves are searched, until each failing batch is a single file. That
file is then reported as bad.

This project models two parts of that search:

- `bisection.dfy`, module `Bisection`, models `src/bisection.rs`:
  - the `State` and `Behavior` vocabularies;
  - the `Group` value type: an inclusive index range `[from, to]` with a
    behaviour. It covers construction, reclassification, size, halving with
    behaviour propagation, and iteration over its indices;
  - the hand-written total order that decides which group is tested first;
  - the `Bisection` controller, whose objects are represented by their cached
    `State` in an array. `SetGroupState` overwrites the state of every index of
    a group, one index at a time.
- `worklist.dfy`, module `Worklist`, models the search loop of `src/main.rs`:
  - a stack of batches of file ids, starting with one batch that holds every id;
  - each step pops a batch and makes exactly that batch's files present;
  - the test is run once, and its result is handled three ways.

The filesystem is reduced to one "present" flag per id. The test command is an
oracle `passes` on the set of present ids. The main theorem, `Worklist.Bisect`,
covers the case where the oracle fails exactly when the tested set holds a
culprit, which is the problem the module documentation states. In that case the
loop terminates and returns each culprit exactly once and nothing else. For any
oracle, every returned id failed the test on its own.

Notes on the source:

- The `Group` documentation says that constructing a group with "`to > from`"
  is an error. It evidently means `from > to`. `Group::new` does not check it.
  The model makes `from <= to` a precondition (`Group.Valid`) of construction,
  size, split, iteration and comparison. With `from > to`, the source's size
  and split would underflow `usize`.
- The last step of the comparison is commented as comparing `to`, but it
  compares `from` a second time (src/bisection.rs:239). That step is only
  reached when the `from`s are already equal, so its non-`Equal` branch, which
  panics in debug builds, is dead. `PartialCmp` marks the branch with
  `assert false`, and the verifier proves it unreachable. The order is still
  total: when behaviour, size and `from` agree, `to` agrees as well.
- `Group.WithBehavior` models `set_behavior(&mut self)` as a functional
  update. `Group` is a `Copy` value, so changing it in place is the same as
  replacing the variable that holds it.
- The search loop in `src/main.rs` splits a batch with `split_at(len / 2)`,
  so the second half gets the extra id. `Group::split` does the opposite: its
  first half gets the extra index.
- The loop tests the whole set first, and then on every level it tests the
  second half and then the first half (the stack is last in, first out). So
  one culprit among `2^k` files takes more than `k` tests. The model does not
  count tests exactly. `Worklist.AsWrittenTerminates` bounds the number of
  steps of the loop as written at `2n - 1` for `n >= 1` ids.

## Model

| member | source | states |
|---|---|---|
| `Bisection.Group.New` | src/bisection.rs:115-121 | the new group has the given `from` and `to`, behaviour `Unknown`, and size `to - from + 1` |
| `Bisection.Group.WithBehavior` | src/bisection.rs:135-137 | only the behaviour changes; range and size stay the same |
| `Bisection.Group.Size` | src/bisection.rs:181-183 | a well-formed group is never empty |
| `Bisection.SizeExamples` | src/bisection.rs:177-179 | (1,1) has size 1; (1,2) and (2,3) have size 2 |
| `Bisection.Range` | src/bisection.rs:205-207 | the inclusive range `lo..=hi` yields `hi - lo + 1` indices, the `i`-th being `lo + i`, and none when `lo > hi` |
| `Bisection.RangeMembers` | src/bisection.rs:205-207 | an index is yielded exactly when it lies in `[lo, hi]` |
| `Bisection.Group.Indices` | src/bisection.rs:186-207 | iterating a group yields `from, from+1, ..., to` in ascending order: `Size()` items, and exactly the indices of `[from, to]` |
| `Bisection.IndicesExample` | src/bisection.rs:195-203 | the group (3,7) yields 3, 4, 5, 6, 7 |
| `Bisection.Group.Split` | src/bisection.rs:149-170 | a one-index group comes back twice unchanged; otherwise the halves are well formed and contiguous, start at `from`, end at `to`, their sizes add up to the parent's and the first half is at most one larger than the second; a `Recessive` parent gives two `Recessive` halves, any other parent two `Unknown` halves |
| `Bisection.SplitIndices` | src/bisection.rs:159-169 | the indices of the first half followed by those of the second are exactly the parent's indices, so the halves are disjoint and their union is the parent |
| `Bisection.SplitExamples` | src/bisection.rs:309-329 | (7,8) splits into (7,7) and (8,8), and a `Recessive` (7,8) into two `Recessive` singletons |
| `Bisection.PartialCmp` | src/bisection.rs:210-248 | the partial comparison always returns a value, so `cmp`'s `unwrap` never panics; its debug-panic branch is proved unreachable |
| `Bisection.Cmp` | src/bisection.rs:250-254 | `Greater` exactly when the first group is tested first by the documented rule (higher behaviour rank `Unknown > Dominant > Recessive`, then larger size, then smaller `from`), `Less` exactly when the second is, `Equal` exactly when the two groups are identical |
| `Bisection.CmpAntisymmetric` | src/bisection.rs:210-254 | swapping the arguments reverses the result |
| `Bisection.CmpTransitive` | src/bisection.rs:210-254 | "not less" is transitive, and two `Equal` steps mean all three groups are identical |
| `Bisection.OrderingExamples` | src/bisection.rs:80-106 | the documented examples: Unknown > Dominant > Recessive on (1,2); (1,4) > (1,2); (1,2) > (2,3) |
| `Bisection.Rank` | src/bisection.rs:213-222 | a behaviour's rank lies between 1 and 3 |
| `Bisection.RankOrder` | src/bisection.rs:213-223 | the ranks order `Unknown > Dominant > Recessive`, so two behaviours with the same rank are the same behaviour |
| `Bisection.Bisection.constructor` | src/bisection.rs:266-272 | requires at least one object; holds exactly the given object states and the one group `Unknown [0, n-1]` |
| `Bisection.Bisection.SetGroupState` | src/bisection.rs:274-279 | keeps the controller's invariant that every group lies inside the object list; the objects become the old states updated at each index of the group in ascending order; so every object of the group has the new state and every other object keeps its old one |
| `Bisection.AssignAll` | src/bisection.rs:276-278 | the loop's sequence of single-object updates keeps the number of objects, gives every updated index the new state and leaves every other index as it was |
| `Bisection.AssignAllAt` | src/bisection.rs:275-279 | after the updates, an object holds the new state exactly when its index was among the updated ones |
| `Bisection.GroupAssign` | src/bisection.rs:275-279 | setting a group's state changes exactly the objects in `[from, to]` |
| `Bisection.GroupAssignIdempotent` | src/bisection.rs:275-279 | setting the same group to the same state twice gives the same objects as setting it once |
| `Bisection.GroupAssignSplit` | src/bisection.rs:275-279 | setting both halves of a split gives the same objects as setting the whole group |
| `Worklist.Enable` | src/main.rs:89-99 | afterwards the file of an id is present exactly when the id is in the popped batch; files outside the id list are untouched |
| `Worklist.HandleAsWritten` | src/main.rs:102-118 | as written: pass drops the batch; failing on one id blames it; any other failure splits the batch into `a ++ b == next`, `a` being half as long as `next`, rounded down |
| `Worklist.Handle` | src/main.rs:102-118 | as the model uses it: a batch is dropped exactly when it passes or is empty; one failing id is blamed; a split gives two non-empty halves whose concatenation is the batch, the second at most one longer than the first |
| `Worklist.HandleDiffersOnlyOnEmptyFailure` | src/main.rs:102-118 | the corrected handling differs from the written one exactly on a failing empty batch; with a culprit-detecting test the empty batch passes, so the two agree on every batch |
| `Worklist.PassingBatchHasNoCulprit` | src/bisection.rs:47-57 | with a culprit-detecting test, a passing batch holds no culprit |
| `Worklist.PoppedFromIds` | src/main.rs:86-87 | a popped batch holds only ids of the initial batch |
| `Worklist.DropKeeps` | src/main.rs:102-105 | dropping a batch keeps the loop invariant: its ids become cleared ids, and none of them is a culprit |
| `Worklist.BlameKeeps` | src/main.rs:106-112 | blaming a one-id batch keeps the loop invariant: the id failed alone, so it is a culprit when the test detects culprits |
| `Worklist.HalveKeeps` | src/main.rs:113-117 | pushing the two halves keeps the loop invariant (halves `a` then `b`, so `b` is popped next) and lowers the termination measure |
| `Worklist.Bisect` | src/main.rs:84-119 | the loop terminates for every oracle; the blamed ids are distinct, come from the initial batch and each failed on its own; with a culprit-detecting test they are exactly the culprits among the ids |
| `Worklist.StepAsWritten` | src/main.rs:86-118 | one iteration of the loop as written pops the top batch and leaves the rest of the stack as it was; the bad list either stays the same or gains the first id of the popped batch |
| `Worklist.RunAsWritten` | src/main.rs:84-119 | after `n` iterations of the loop as written, the initial bad list is a prefix of the result, which holds at most `n` more ids |
| `Worklist.AsWrittenStepShrinks` | src/main.rs:86-118 | on a stack of non-empty batches, an iteration as written handles the batch exactly as the corrected handling does, keeps every batch non-empty and lowers the cost |
| `Worklist.PushHalves` | src/main.rs:114-116 | pushing two non-empty halves keeps every batch non-empty and adds the halves' weights to the cost |
| `Worklist.AsWrittenDrains` | src/main.rs:84-119 | the loop as written empties any stack of non-empty batches within as many iterations as the stack's cost |
| `Worklist.AsWrittenTerminates` | src/main.rs:84-119 | with at least one id, the loop as written ends for every test outcome within `2n - 1` iterations for `n` ids |
| `Worklist.EmptyBatchesMultiply` | src/main.rs:113-117 | in the loop as written, a stack of `k >= 1` empty batches under a test that fails grows to `k + n` empty batches after `n` steps, with nothing blamed |
| `Worklist.EmptyBatchNeverDrains` | src/main.rs:84-119 | in the loop as written, with no ids and a failing test, the stack is never empty: the loop does not end |

## Findings

| source | as written | input that shows it | evidently intended | confidence | as-written member | corrected member |
|---|---|---|---|---|---|---|
| src/main.rs:113-117 | a failing batch whose length is not 1 is split at `len / 2`; an empty batch splits into two empty batches that are both pushed | no file matches the given paths (the initial batch is empty) and the test command fails, e.g. `false` | the loop ends and reports no bad files; a failing empty batch is dropped | medium, not executed | `Worklist.EmptyBatchNeverDrains` | `Worklist.Bisect` |

`Worklist.Handle` is the corrected result handling that `Worklist.Bisect` uses.
It differs from `Worklist.HandleAsWritten` only on a failing empty batch
(`Worklist.HandleDiffersOnlyOnEmptyFailure`). With at least one id the two
never differ, because every split gives two non-empty halves, and the loop
as written then ends for every test outcome (`Worklist.AsWrittenStepShrinks`,
`Worklist.AsWrittenTerminates`). With a
culprit-detecting test they never differ either, because the empty batch
passes.

## Left out

- Glob expansion, the `.halfwit` backup directory, the `MANIFEST` file, UUID generation and manifest copying (src/main.rs:26-55): filesystem I/O. The ids are an arbitrary sequence of distinct values.
- Shell selection and `Command` setup (src/main.rs:57-71): process plumbing. The test is the `passes` oracle on the set of present ids.
- The pre-run remove and restore (src/main.rs:73-81) and `restore_manifest` (src/main.rs:129-134): filesystem plumbing. The model starts with every file present, which is their combined effect.
- Errors from `fs::copy` and `fs::remove_file` inside the loop (src/main.rs:92, 96) and from `run.status()` (src/main.rs:102), which end the run through `?`: I/O failures. The model's filesystem operations and test always succeed.
- The result of `restore_manifest` is discarded at src/main.rs:81 and src/main.rs:124, so a failed restore is silently ignored rather than ending the run: I/O failures are not modelled.
- Duplicate paths: overlapping arguments (for example `foo.jar '*.jar'`) put the same file into the path list twice (src/main.rs:35-45), and each copy gets its own UUID for the same path (src/main.rs:50-51). The model keeps one present flag per id and so assumes that distinct ids name distinct files. With a duplicated file, its two ids alias one path, and whether the file is present after the toggling loop depends on the order in which the `HashMap` visits the two ids.
- Printing of progress and results: not algorithmic.
- The iteration order of the manifest's `HashMap`: the initial batch and the order in which files are toggled follow the given id sequence. When distinct ids name distinct files, the toggling result does not depend on that order; with duplicate paths it does (see the duplicate-paths line above).
- The `Stateful` trait's real side effects (src/bisection.rs:33-45): a foreign capability. Each object is represented by its cached `State`.
- Bisection.Bisection.SetGroupState: requires `to` to be a valid object index. The source's `get_mut(i).unwrap()` would panic part-way through instead.
- The debug-only `panic!` and the `usize` underflow of `size` and `Bisection::new`: the model uses unbounded naturals, with `from <= to` and a non-empty object list as preconditions.
- The macro self-tests of the test module (src/bisection.rs:286-306): plain arithmetic, nothing to model.
- src/lib.rs: a plain data struct with no logic.
