# Verification of the contract libraries and maintenance scripts

This project models the stateful libraries that the generator templates under
`lib/openzeppelin-contracts/scripts` emit, and three of the maintenance scripts, and proves what they
promise. `dafny verify dfyconfig.toml` checks all of it.

- **Checkpoints** (`Checkpoints.dfy`, `CheckpointRuns.dfy`): append-or-overwrite histories, the two
  binary searches and the fast path for recent blocks. A `Trace` is the storage array with its
  operations, a `History` adds the operations keyed by block number. `CheckpointRuns` is the state
  machine of a history: its steps are block advances and pushes, a push has exactly the effect that
  the contracts of `History.Push` and `History.PushWith` state, and the theorems hold after every run.
  The number of the executing block is a parameter.
- **Math** (`MathLib.dfy`, with `Arithmetic.dfy` and `Words.dfy`): the average, logarithm and square root
  that the checkpoints call, as they compute them, unchecked arithmetic included.
- **SafeCast** (`SafeCast.dfy`): checked casts, for every width rather than the emitted multiples of eight.
- **Enumerable sets and maps** (`EnumerableSet.dfy`, `EnumerableMap.dfy`, `Conversion.dfy`): swap-and-pop
  arrays with an index mapping, the map on top of them, and the typed wrappers on top of both. Storage
  mappings are total with default zero; a mapping is represented by its non-zero slots, so equal
  representations are equal storage. `bytes32` words and typed values are numbers, with the range of
  the type.
- **Inheritance ordering** (`InheritanceOrdering.dfy`, `Precedence.dfy`, `PrecedenceHoles.dfy`,
  `Linearizations.dfy`, `LinearizedHoles.dfy`): the graph of contract linearizations, the report of pairs
  ordered both ways, and the theory of when such pairs are all one has to look for. The laws that
  linearizations obey, from compiler output, are stated as `Linearizations.Linearized`: a chain starts with
  its own contract, and every base in it has a chain of its own, which is kept inside in order.
- **Import migration** (`MigrateImports.dfy`, `ShippedUpdates.dfy`, `UpgradeablePaths.dfy`): first-occurrence
  rewriting of import paths over a source seen as a sequence of tokens, the table of path updates, and the
  naming of upgradeable files.
- **Line formatting** (`FormatLines.dfy`): nested blocks of indented lines.
- `Sequences.dfy` holds what several modules say of sequences.

Reverts are the value `Reverted` of `Outcome`; the contracts say that state is then unchanged.

One claim of the source is false of some inputs, and the project states exactly when it holds. The remark
that only cycles of length two matter
(`lib/openzeppelin-contracts/scripts/checks/inheritance-ordering.js:30-31`), and with it the message that the
ordering is consistent, fails for three contracts 1, 2 and 3 without bases and three that derive from two of
them each, in the orders 1-2, 2-3 and 3-1 (`InheritanceOrdering.CheckMissesCycle`). It holds for every
linearization of the contracts if and only if they have no hole (`LinearizedHoles.LinearizedPairsSufficeIff`),
which depends only on which contracts share chains. This is about families that obey the laws of
linearizations; a compiler output does unless a contract outside the mocks has a base in one
(`InheritanceOrdering.CheckedIsLinearizedIff`), and then `PrecedenceHoles.PairsSufficeIff` still says when
pairs are enough for arbitrary chains.

That the migration script rewrites one occurrence of each path per run is a property of its table: tables
have it, for all sources, if and only if no entry produces a path that another one changes
(`MigrateImports.PassesExactIff`), and the shipped table has it (`ShippedUpdates.ShippedMigration`).

## Model

| member | source | states |
|---|---|---|
| `CheckpointRuns.TimeTravel` | lib/openzeppelin-contracts/scripts/generate/templates/Checkpoints.js:73-80 | after any run of block advances and pushes, a query about a past block is answered with the left fold, from zero, of exactly the updates pushed in blocks up to it, where an operation takes the latest value first and the delta second; a query about the current or a later block, or one beyond 32 bits, reverts |
| `CheckpointRuns.Finality` | lib/openzeppelin-contracts/scripts/generate/templates/Checkpoints.js:73-74 | from any well-formed state, the answer about a past block (value or revert) is the same in every later state of every run |
| `CheckpointRuns.LatestIsReplay` | lib/openzeppelin-contracts/scripts/generate/templates/Checkpoints.js:126-132 | the latest value is the fold of every update pushed so far |
| `CheckpointRuns.KeyNeverInvalid` | lib/openzeppelin-contracts/scripts/generate/templates/Checkpoints.js:116-118 | in every reachable state the key check of a push passes, so a push reverts only for its operation, for a value of more than 224 bits or for a block number of more than 32 |
| `CheckpointRuns.RunSplits` | lib/openzeppelin-contracts/scripts/generate/templates/Checkpoints.js:116-132 | a run is the run of its second part from where its first part ends, so what holds from every state holds at every point of a run |
| `CheckpointRuns.IndexMatchesLog` | lib/openzeppelin-contracts/scripts/generate/templates/Checkpoints.js:177-202 | over any attempts to push, the upper lookup of the compacted checkpoints equals the upper lookup of the whole log of accepted pushes |
| `CheckpointRuns.LowerMatchesLog` | lib/openzeppelin-contracts/scripts/generate/templates/Checkpoints.js:51-55 | the lower lookup returns the last value pushed under the smallest accepted key from the search key on, and zero exactly when there is no such key |
| `CheckpointRuns.OneSlotPerKey` | lib/openzeppelin-contracts/scripts/generate/templates/Checkpoints.js:191-196 | the keys stored are the keys accepted, and there are as many checkpoints as distinct accepted keys |
| `CheckpointRuns.RejectedIffPast` | lib/openzeppelin-contracts/scripts/generate/templates/Checkpoints.js:188-189 | a push is rejected exactly when a greater key was accepted before |
| `CheckpointRuns.ReturnsTelescope` | lib/openzeppelin-contracts/scripts/generate/templates/Checkpoints.js:197-200 | each push returns as previous value the new value of the push before it, the first returns zero, and the changes sum to the latest value |
| `Checkpoints.RecordedLookup` | lib/openzeppelin-contracts/scripts/generate/templates/Checkpoints.js:191-199 | recording a value changes the upper lookup to it for every key from its own on, and for no other key |
| `Checkpoints.SearchesAreDual` | lib/openzeppelin-contracts/scripts/generate/templates/Checkpoints.js:210-248 | upper minus lower position is one when the key has a checkpoint and zero otherwise; when it is one both lookups return the same value |
| `Checkpoints.UpToIsPrefix` | lib/openzeppelin-contracts/scripts/generate/templates/Checkpoints.js:60-64 | any split of a history into keys up to a bound and keys above it is what the linear filter computes |
| `Checkpoints.FromIsSuffix` | lib/openzeppelin-contracts/scripts/generate/templates/Checkpoints.js:51-55 | any split of a history into keys below a bound and keys from it on is what the linear filter computes |
| `Checkpoints.LengthFits` | lib/openzeppelin-contracts/scripts/generate/templates/Checkpoints.js:169-171 | strictly increasing keys bound the number of checkpoints by the number of keys, so lengths fit a word |
| `Checkpoints.ProbesBounded` | lib/openzeppelin-contracts/scripts/generate/templates/Checkpoints.js:216-224 | the upper search on a section of w elements reads at most floor(log2 w) + 1 keys, and none if w is zero |
| `Checkpoints.ProbesBoundTight` | lib/openzeppelin-contracts/scripts/generate/templates/Checkpoints.js:216-224 | that bound is reached by every key that is smaller than the whole section |
| `Checkpoints.UpperBinaryLookup` | lib/openzeppelin-contracts/scripts/generate/templates/Checkpoints.js:210-225 | returns the first index of the section whose key is greater, or the end of the section; reads as many keys as the probe count says |
| `Checkpoints.LowerBinaryLookup` | lib/openzeppelin-contracts/scripts/generate/templates/Checkpoints.js:233-248 | returns the first index of the section whose key is at least the search key, or the end of the section |
| `Checkpoints.ProbablyRecentLookup` | lib/openzeppelin-contracts/scripts/generate/templates/Checkpoints.js:94-106 | finds the same position as a search of the whole history; a position among the last sqrt(N) costs at most one probe plus the bound for sqrt(N) - 1, any position at most one plus the bound for N |
| `Checkpoints.RecentSplit` | lib/openzeppelin-contracts/scripts/generate/templates/Checkpoints.js:97-98 | the split index N - sqrt(N) is inside the history whenever N is greater than five |
| `Checkpoints.Trace.Insert` | lib/openzeppelin-contracts/scripts/generate/templates/Checkpoints.js:177-202 | rejects a key below the last and leaves the history as it was; otherwise overwrites the last slot or appends one, and returns the previous latest value and the new one |
| `Checkpoints.Trace.Push` | lib/openzeppelin-contracts/scripts/generate/templates/Checkpoints.js:40-46 | the same for the keyed push |
| `Checkpoints.Trace.LowerLookup` | lib/openzeppelin-contracts/scripts/generate/templates/Checkpoints.js:51-55 | the value of the first element of the linear filter of keys from the search key on, or zero |
| `Checkpoints.Trace.UpperLookup` | lib/openzeppelin-contracts/scripts/generate/templates/Checkpoints.js:60-64 | the value of the last element of the linear filter of keys up to the search key, or zero |
| `Checkpoints.Trace.Latest` | lib/openzeppelin-contracts/scripts/generate/templates/Checkpoints.js:139-142 | the value of the last checkpoint, or zero |
| `Checkpoints.Trace.LatestCheckpoint` | lib/openzeppelin-contracts/scripts/generate/templates/Checkpoints.js:148-164 | the last checkpoint, and whether there is one |
| `Checkpoints.History.GetAtBlock` | lib/openzeppelin-contracts/scripts/generate/templates/Checkpoints.js:73-80 | reverts unless the block is past and fits 32 bits; otherwise the last value of the linear filter, within the probe bound for N |
| `Checkpoints.History.GetAtProbablyRecentBlock` | lib/openzeppelin-contracts/scripts/generate/templates/Checkpoints.js:88-109 | the same answer and the same reverts as the plain getter on every history, with the recent-query cost |
| `Checkpoints.History.Push` | lib/openzeppelin-contracts/scripts/generate/templates/Checkpoints.js:116-118 | records the value under the current block, or reverts on either cast or on the key and changes nothing |
| `Checkpoints.History.PushWith` | lib/openzeppelin-contracts/scripts/generate/templates/Checkpoints.js:126-132 | records op(latest, delta) under the current block; reverts and changes nothing if the operation, a cast or the key check does |
| `Checkpoints.Trace.Length` | lib/openzeppelin-contracts/scripts/generate/templates/Checkpoints.js:169-171 | the number of checkpoints, which fits a word |
| `MathLib.Average` | lib/openzeppelin-contracts/contracts/utils/math/Math.sol:34-37 | the bitwise formula is the mean rounded down, for all pairs of words |
| `MathLib.AddIsCarryAndSum` | lib/openzeppelin-contracts/contracts/utils/math/Math.sol:34-37 | a sum is twice the common bits plus the differing bits |
| `MathLib.Bitwise` | lib/openzeppelin-contracts/contracts/utils/math/Math.sol:34-37 | the two bit operations of the formula work digit by digit |
| `MathLib.Log2` | lib/openzeppelin-contracts/contracts/utils/math/Math.sol:205-241 | the eight conditional shifts compute the binary logarithm rounded down, and zero for zero |
| `MathLib.Sqrt` | lib/openzeppelin-contracts/contracts/utils/math/Math.sol:158-189 | the code gives the square root rounded down, for every 256-bit word |
| `MathLib.NextRefine` | lib/openzeppelin-contracts/contracts/utils/math/Math.sol:180-186 | a Newton step turns a relative error of 1/m into one of 1/(2 m^2), up to an excess of 2 |
| `MathLib.FirstRefine` | lib/openzeppelin-contracts/contracts/utils/math/Math.sol:173-180 | the first step from the power-of-two guess is within a quarter of the root, up to an excess of 2 |
| `MathLib.LastRefine` | lib/openzeppelin-contracts/contracts/utils/math/Math.sol:186-187 | once the squared error is about the root, the smaller of the guess and its cofactor is exactly the root |
| `MathLib.FirstGuess` | lib/openzeppelin-contracts/contracts/utils/math/Math.sol:163-173 | two to half the logarithm is at most the root and more than half of it |
| `MathLib.FloorSqrtIsRoot` | lib/openzeppelin-contracts/contracts/utils/math/Math.sol:153-157 | the number of successive odd numbers that fit into a has a square of at most a, and its successor has not |
| `MathLib.FloorSqrtUnique` | lib/openzeppelin-contracts/contracts/utils/math/Math.sol:153-157 | it is the only such number |
| `MathLib.SevenSteps` | lib/openzeppelin-contracts/contracts/utils/math/Math.sol:173-187 | from a power of two above half the root, seven Newton steps modulo the word and a minimum reach the root of every argument whose root is below 2^128 |
| `SafeCast.SignedTruncation` | lib/openzeppelin-contracts/scripts/generate/templates/SafeCast.js:117-120 | for every width n, two's-complement truncation to n bits lands in the signed range of n bits and gives back the argument exactly when that was in the range |
| `SafeCast.TruncationDropsMultiple` | lib/openzeppelin-contracts/scripts/generate/templates/SafeCast.js:117-120 | truncation to n bits changes the argument by a multiple of 2^n |
| `SafeCast.ToIntDown` | lib/openzeppelin-contracts/scripts/generate/templates/SafeCast.js:117-120 | the signed downcast returns its argument on the signed range and reverts elsewhere |
| `SafeCast.DownCast` | lib/openzeppelin-contracts/scripts/generate/templates/SafeCast.js:96-99 | the unsigned downcast returns its argument below the limit and reverts elsewhere |
| `SafeCast.NestedUnsignedCasts` | lib/openzeppelin-contracts/scripts/generate/templates/SafeCast.js:96-99 | nested unsigned casts of two widths are the cast to the narrower one |
| `SafeCast.NestedSignedCasts` | lib/openzeppelin-contracts/scripts/generate/templates/SafeCast.js:117-120 | nested signed casts of two widths are the cast to the narrower one |
| `SafeCast.SignConversionsInverse` | lib/openzeppelin-contracts/scripts/generate/templates/SafeCast.js:134-154 | the two sign conversions return their argument up to 2^255 - 1 and from zero on, revert elsewhere, and so are inverse where they succeed |
| `Conversion.RoundTrip` | lib/openzeppelin-contracts/scripts/generate/templates/conversion.js:1-25 | every supported typed value survives the conversion to a word and back; other types are refused |
| `Conversion.LowBitsKept` | lib/openzeppelin-contracts/scripts/generate/templates/conversion.js:1-25 | both conversions keep the low 160 bits for an address, and the whole word for the other types |
| `Conversion.LimitIsWidth` | lib/openzeppelin-contracts/scripts/generate/templates/conversion.js:1-25 | an address has 160 bits, and the other types as many as a word |
| `Conversion.WordRoundTrip` | lib/openzeppelin-contracts/scripts/generate/templates/conversion.js:14-25 | a word survives the conversion to a typed value and back exactly when it is within the type's range |
| `Conversion.EncodeInjective` | lib/openzeppelin-contracts/scripts/generate/templates/conversion.js:1-12 | distinct typed values never collide as words |
| `EnumerableSet.SetRefines` | lib/openzeppelin-contracts/scripts/generate/templates/EnumerableSet.js:75-125 | after any run of additions and removals the array lists the mathematical set, each element once |
| `EnumerableSet.IndexIsExact` | lib/openzeppelin-contracts/scripts/generate/templates/EnumerableSet.js:61-67 | a value's index is i + 1 exactly when it is stored at position i, and zero exactly when it is absent; values are distinct |
| `EnumerableSet.IndexesDetermined` | lib/openzeppelin-contracts/scripts/generate/templates/EnumerableSet.js:61-67 | the array determines the whole mapping; the empty array means the all-zero mapping |
| `EnumerableSet.SwapPopConserves` | lib/openzeppelin-contracts/scripts/generate/templates/EnumerableSet.js:99-116 | swap-and-pop takes exactly one occurrence from the multiset of values and moves at most the last value, into the gap |
| `EnumerableSet.IndexedAfterRemoval` | lib/openzeppelin-contracts/scripts/generate/templates/EnumerableSet.js:106-119 | re-indexing the moved value and clearing the removed one restores the index invariant, also when the last slot is removed |
| `EnumerableSet.AddThenRemove` | lib/openzeppelin-contracts/scripts/generate/templates/EnumerableSet.js:75-125 | adding a new value and removing it restores the exact array and the exact mapping |
| `EnumerableSet.RemoveAllEmpties` | lib/openzeppelin-contracts/scripts/generate/templates/EnumerableSet.js:44-45 | removing the elements one by one, in any order, ends in the initial state: the empty array and the all-zero mapping |
| `EnumerableSet.WithoutElements` | lib/openzeppelin-contracts/scripts/generate/templates/EnumerableSet.js:93-125 | a removal takes exactly the value from the elements and keeps them distinct |
| `EnumerableSet.Set.Add` | lib/openzeppelin-contracts/scripts/generate/templates/EnumerableSet.js:75-85 | appends a value that is absent and keeps the index invariant; returns whether it was absent |
| `EnumerableSet.Set.Remove` | lib/openzeppelin-contracts/scripts/generate/templates/EnumerableSet.js:93-125 | swaps and pops a value that is present and keeps the index invariant; returns whether it was present |
| `EnumerableSet.Set.Contains` | lib/openzeppelin-contracts/scripts/generate/templates/EnumerableSet.js:130-132 | the index test is membership in the array |
| `EnumerableSet.Set.At` | lib/openzeppelin-contracts/scripts/generate/templates/EnumerableSet.js:151-153 | the value at a position below the length; a revert elsewhere |
| `EnumerableSet.TypedSetRefines` | lib/openzeppelin-contracts/scripts/generate/templates/EnumerableSet.js:181-193 | after any run of typed operations every stored word is within the type and the words list the mathematical set of typed values |
| `EnumerableSet.TypedSet.Add` | lib/openzeppelin-contracts/scripts/generate/templates/EnumerableSet.js:181-183 | the typed contents gain the value, with no stray bits in the stored word |
| `EnumerableSet.TypedSet.Remove` | lib/openzeppelin-contracts/scripts/generate/templates/EnumerableSet.js:191-193 | the typed contents lose the value by swap-and-pop |
| `EnumerableSet.TypedSet.At` | lib/openzeppelin-contracts/scripts/generate/templates/EnumerableSet.js:219-221 | the decoded value at a position below the length |
| `EnumerableSet.TypedSet.Values` | lib/openzeppelin-contracts/scripts/generate/templates/EnumerableSet.js:231-241 | reinterpreting the words without converting them gives the decoded contents, all within the type |
| `EnumerableSet.Set.Length` | lib/openzeppelin-contracts/scripts/generate/templates/EnumerableSet.js:137-139 | the number of stored values |
| `EnumerableSet.Set.Values` | lib/openzeppelin-contracts/scripts/generate/templates/EnumerableSet.js:163-165 | the stored values in order |
| `EnumerableSet.TypedSet.Contains` | lib/openzeppelin-contracts/scripts/generate/templates/EnumerableSet.js:198-200 | membership in the typed contents |
| `EnumerableSet.TypedSet.Length` | lib/openzeppelin-contracts/scripts/generate/templates/EnumerableSet.js:205-207 | the number of typed values |
| `EnumerableMap.MapRefines` | lib/openzeppelin-contracts/scripts/generate/templates/EnumerableMap.js:82-99 | after any run of sets and removals the storage stands for the mathematical map, and non-zero values are stored only under present keys |
| `EnumerableMap.EnumerationExact` | lib/openzeppelin-contracts/scripts/generate/templates/EnumerableMap.js:125-128 | the positions below the length yield each entry of the map once and nothing else |
| `EnumerableMap.PutUpdates` | lib/openzeppelin-contracts/scripts/generate/templates/EnumerableMap.js:82-89 | a set updates the mathematical map at its key and keeps the hidden invariant |
| `EnumerableMap.DropRemoves` | lib/openzeppelin-contracts/scripts/generate/templates/EnumerableMap.js:96-99 | a removal takes its key from the mathematical map and keeps the hidden invariant |
| `EnumerableMap.Bytes32ToBytes32Map.Set` | lib/openzeppelin-contracts/scripts/generate/templates/EnumerableMap.js:82-89 | the map is updated at the key; returns whether the key is new |
| `EnumerableMap.Bytes32ToBytes32Map.Remove` | lib/openzeppelin-contracts/scripts/generate/templates/EnumerableMap.js:96-99 | the key is taken out of the map; returns whether it was there |
| `EnumerableMap.Bytes32ToBytes32Map.Length` | lib/openzeppelin-contracts/scripts/generate/templates/EnumerableMap.js:111-113 | the number of entries of the map |
| `EnumerableMap.Bytes32ToBytes32Map.At` | lib/openzeppelin-contracts/scripts/generate/templates/EnumerableMap.js:125-128 | the entry at a position of the enumeration; a revert beyond it |
| `EnumerableMap.Bytes32ToBytes32Map.TryGet` | lib/openzeppelin-contracts/scripts/generate/templates/EnumerableMap.js:134-141 | finds exactly the keys of the map and their values, although it skips the membership test for non-zero values; keys mapped to zero are found |
| `EnumerableMap.Bytes32ToBytes32Map.Get` | lib/openzeppelin-contracts/scripts/generate/templates/EnumerableMap.js:150-154 | the value of a key of the map; a revert for any other key |
| `EnumerableMap.TypedRefines` | lib/openzeppelin-contracts/scripts/generate/templates/EnumerableMap.js:187-202 | after any run of typed operations, each converted to words, the storage is within the types and its decoded form is the mathematical map over typed keys and values |
| `EnumerableMap.CleanDecodes` | lib/openzeppelin-contracts/scripts/generate/templates/EnumerableMap.js:227-239 | on storage within the types, decoding every key and value changes nothing |
| `EnumerableMap.TypedMap.Set` | lib/openzeppelin-contracts/scripts/generate/templates/EnumerableMap.js:187-193 | the typed map is updated at the key; returns whether the key is new |
| `EnumerableMap.TypedMap.Remove` | lib/openzeppelin-contracts/scripts/generate/templates/EnumerableMap.js:200-202 | the key is taken out of the typed map; returns whether it was there |
| `EnumerableMap.TypedMap.At` | lib/openzeppelin-contracts/scripts/generate/templates/EnumerableMap.js:227-230 | the entry at a position of the enumeration, decoded |
| `EnumerableMap.TypedMap.OrderListsContents` | lib/openzeppelin-contracts/scripts/generate/templates/EnumerableMap.js:227-230 | the enumeration lists the entries of the typed map, each key once |
| `EnumerableMap.TypedMap.TryGet` | lib/openzeppelin-contracts/scripts/generate/templates/EnumerableMap.js:236-239 | finds exactly the keys of the typed map and their values |
| `EnumerableMap.TypedMap.Get` | lib/openzeppelin-contracts/scripts/generate/templates/EnumerableMap.js:248-250 | the value of a key of the typed map; a revert for any other key |
| `EnumerableMap.Bytes32ToBytes32Map.Contains` | lib/openzeppelin-contracts/scripts/generate/templates/EnumerableMap.js:104-106 | tells whether the key has an entry, also when it is mapped to zero |
| `EnumerableMap.TypedMap.Contains` | lib/openzeppelin-contracts/scripts/generate/templates/EnumerableMap.js:207-209 | tells whether the typed key has an entry |
| `EnumerableMap.TypedMap.Length` | lib/openzeppelin-contracts/scripts/generate/templates/EnumerableMap.js:214-216 | the number of entries of the typed map |
| `LinearizedHoles.LinearizedPairsSufficeIff` | lib/openzeppelin-contracts/scripts/checks/inheritance-ordering.js:30-31 | for every family of linearizations that obeys the compiler's laws: whatever order the laws allow its chains, no opposite edges means no cycle, if and only if the family has no hole, a ring of ids whose neighbours share chains and whose closing pair shares none with a third |
| `LinearizedHoles.HoleMakesLinearizedCycle` | lib/openzeppelin-contracts/scripts/checks/inheritance-ordering.js:30-34 | contracts with a hole can be linearized, by the laws, with a cycle and no opposite edges |
| `LinearizedHoles.ShrinkHole` | lib/openzeppelin-contracts/scripts/checks/inheritance-ordering.js:30-34 | every hole contains one in which no contract derives from another |
| `Linearizations.CycleWithoutConflict` | lib/openzeppelin-contracts/scripts/checks/inheritance-ordering.js:30-31 | six linearizations that obey the laws, without opposite edges, make a cycle and agree with no total order |
| `Linearizations.DerivesAntisymmetric` | lib/openzeppelin-contracts/scripts/checks/inheritance-ordering.js:20-25 | by the laws no two contracts derive from each other |
| `PrecedenceHoles.PairsSufficeIff` | lib/openzeppelin-contracts/scripts/checks/inheritance-ordering.js:30-31 | the same equivalence for arbitrary duplicate-free chains in any order |
| `PrecedenceHoles.CleanCheckIsConsistent` | lib/openzeppelin-contracts/scripts/checks/inheritance-ordering.js:48-50 | for a family without a hole, a check that finds nothing means that one total order agrees with every linearization |
| `PrecedenceHoles.CycleLeavesHole` | lib/openzeppelin-contracts/scripts/checks/inheritance-ordering.js:30-34 | a cycle without opposite edges always leaves a hole |
| `PrecedenceHoles.HoleMakesCycle` | lib/openzeppelin-contracts/scripts/checks/inheritance-ordering.js:30-34 | arbitrary duplicate-free chains with a hole can be ordered so that there is a cycle and no opposite edges |
| `Precedence.NoCycleWithinChain` | lib/openzeppelin-contracts/scripts/checks/inheritance-ordering.js:24-35 | when no opposite edges are found, no directed cycle of any length lies within one linearization |
| `InheritanceOrdering.CheckedIsLinearizedIff` | lib/openzeppelin-contracts/scripts/checks/inheritance-ordering.js:15-22 | for a compiler output, the chains that are checked obey the laws of linearizations if and only if no contract outside the mocks has a base in a mock |
| `InheritanceOrdering.CheckMissesCycle` | lib/openzeppelin-contracts/scripts/checks/inheritance-ordering.js:48-50 | a compiler output without mock bases that has no conflict although no total order agrees with its linearizations |
| `InheritanceOrdering.VerdictIsRight` | lib/openzeppelin-contracts/scripts/checks/inheritance-ordering.js:48-50 | a conflict rules out every total order; without a conflict there is a total order, unless the chains have a hole |
| `Precedence.ConsistentIffAcyclic` | lib/openzeppelin-contracts/scripts/checks/inheritance-ordering.js:48-50 | the linearizations agree on a total order exactly when the graph has no directed cycle |
| `InheritanceOrdering.CheckArtifact` | lib/openzeppelin-contracts/scripts/checks/inheritance-ordering.js:15-45 | a pair is reported once, smaller id first, if some chain outside the mocks orders it one way and some chain the other, and not at all otherwise; the result is failure exactly when there is such a pair |
| `InheritanceOrdering.IsMockIff` | lib/openzeppelin-contracts/scripts/checks/inheritance-ordering.js:16-18 | a source is skipped exactly when its path has /mocks/ in it |
| `InheritanceOrdering.CheckedIff` | lib/openzeppelin-contracts/scripts/checks/inheritance-ordering.js:15-22 | a contract is checked exactly when some source whose path does not have /mocks/ in it defines it |
| `InheritanceOrdering.CheckedInOrder` | lib/openzeppelin-contracts/scripts/checks/inheritance-ordering.js:15-22 | the definitions are taken source by source, in order |
| `InheritanceOrdering.LinesExact` | lib/openzeppelin-contracts/scripts/checks/inheritance-ordering.js:37-43 | on duplicate-free chains a report has one line for each chain that has both contracts, and it shows the direction in which that chain orders them |
| `InheritanceOrdering.LinesInOrder` | lib/openzeppelin-contracts/scripts/checks/inheritance-ordering.js:37-43 | the lines follow the order of the chains |
| `InheritanceOrdering.BuildGraph` | lib/openzeppelin-contracts/scripts/checks/inheritance-ordering.js:15-28 | the chains are those of every contract outside the mocks, and the edges exactly their precedences |
| `InheritanceOrdering.AddChain` | lib/openzeppelin-contracts/scripts/checks/inheritance-ordering.js:24-26 | the edges gained are exactly the pairs that the chain orders |
| `InheritanceOrdering.ReportShowsBoth` | lib/openzeppelin-contracts/scripts/checks/inheritance-ordering.js:37-43 | the lines of a report on duplicate-free chains show a chain for each of the two directions |
| `InheritanceOrdering.CheckAll` | lib/openzeppelin-contracts/scripts/checks/inheritance-ordering.js:8-50 | the exit code is set exactly when some compiler output has a pair ordered both ways; then some output agrees with no total order, and if it is not set every output without a hole agrees with one |
| `InheritanceOrdering.AddRow` | lib/openzeppelin-contracts/scripts/checks/inheritance-ordering.js:24-26 | the edges gained are those from one member of the chain to every later one |
| `InheritanceOrdering.AddDefinitions` | lib/openzeppelin-contracts/scripts/checks/inheritance-ordering.js:20-27 | the chains of a source file are appended in order and the graph keeps representing the chains |
| `InheritanceOrdering.ReportRow` | lib/openzeppelin-contracts/scripts/checks/inheritance-ordering.js:32-35 | the report stays exact on the pairs visited, each once |
| `InheritanceOrdering.Graph.SetEdge` | lib/openzeppelin-contracts/scripts/checks/inheritance-ordering.js:25 | adds the edge and, as nodes, its two ends and nothing else, and keeps the nodes in ascending order |
| `MigrateImports.PassesExactIff` | lib/openzeppelin-contracts/scripts/migrate-imports.js:144-157 | n passes replace exactly the first n occurrences of every old path, for all sources and n, if and only if no path that an entry produces is one that an entry changes |
| `MigrateImports.PassesAreFirstOccurrences` | lib/openzeppelin-contracts/scripts/migrate-imports.js:144-157 | for such tables n passes have that closed form |
| `MigrateImports.ConvergesIff` | lib/openzeppelin-contracts/scripts/migrate-imports.js:144-157 | the result is the simultaneous rewriting if and only if there are as many passes as occurrences of each path that changes |
| `MigrateImports.Converges` | lib/openzeppelin-contracts/scripts/migrate-imports.js:144-157 | from then on it is a fixpoint |
| `MigrateImports.OrderIrrelevant` | lib/openzeppelin-contracts/scripts/migrate-imports.js:144-145 | the order of the table's entries does not change the result of any number of passes |
| `MigrateImports.FirstOccurrencesAt` | lib/openzeppelin-contracts/scripts/migrate-imports.js:146-153 | in the closed form, a token is replaced by what the table makes of it if fewer than n equal ones precede it, and stays otherwise |
| `MigrateImports.SimultaneousAt` | lib/openzeppelin-contracts/scripts/migrate-imports.js:146-153 | the simultaneous rewriting replaces every token by what the table makes of it |
| `MigrateImports.EntryRewrites` | lib/openzeppelin-contracts/scripts/migrate-imports.js:145-153 | an entry takes @openzeppelin/contracts/ and the old file to the same with the new file, and @openzeppelin/contracts-upgradeable/ and the old file with Upgradeable after its name to the same of the new file |
| `MigrateImports.OnlyImportsChange` | lib/openzeppelin-contracts/scripts/migrate-imports.js:145-153 | no token other than an import of an old file, in one of the packages, changes |
| `MigrateImports.UpdateImportPaths` | lib/openzeppelin-contracts/scripts/migrate-imports.js:144-157 | the loop is one pass of the table that has, for each path update, a plain and an upgradeable replacement |
| `MigrateImports.ExpandedUnchained` | lib/openzeppelin-contracts/scripts/migrate-imports.js:145-153 | the doubled table is free of chained replacements when the path updates are |
| `MigrateImports.ExpandedDistinct` | lib/openzeppelin-contracts/scripts/migrate-imports.js:145-153 | the doubled table has distinct keys when the path updates have |
| `MigrateImports.MigrationConverges` | lib/openzeppelin-contracts/scripts/migrate-imports.js:144-157 | for every table of relative files with distinct and unchained paths, every source and every number of runs: the runs rewrite first occurrences of the imports of both packages, reach the simultaneous rewriting exactly when there are enough of them, and then change nothing any more; each entry takes the import of its old file to that of the new one, in the upgradeable package with the suffix between name and extension of both |
| `ShippedUpdates.ShippedTable` | lib/openzeppelin-contracts/scripts/migrate-imports.js:6-90 | the 56 updates of the script have distinct old paths, none of which is a new path |
| `ShippedUpdates.ShippedNames` | lib/openzeppelin-contracts/scripts/migrate-imports.js:6-90 | every update moves a file, or moves it and marks it as a draft, except one that renames UpgradeableProxy.sol |
| `ShippedUpdates.MoveKeepsName` | lib/openzeppelin-contracts/scripts/migrate-imports.js:6-90 | a moved file keeps its base name, up to the mark of a draft |
| `ShippedUpdates.ShippedMigration` | lib/openzeppelin-contracts/scripts/migrate-imports.js:6-157 | all that holds of migration with such a table holds with the table that the script ships with |
| `UpgradeablePaths.UpgradeableInjective` | lib/openzeppelin-contracts/scripts/migrate-imports.js:159-163 | different files have different upgradeable variants, relative or absolute, except that one or two slashes before a file in the root make no difference |
| `UpgradeablePaths.ParseUpgradeable` | lib/openzeppelin-contracts/scripts/migrate-imports.js:159-163 | the upgradeable path parses into the same directory and extension, with the suffix on the name |
| `UpgradeablePaths.NameGetsSuffix` | lib/openzeppelin-contracts/scripts/migrate-imports.js:159-163 | Upgradeable is put between the name and the extension, which is what follows the last dot; the directory stays, but a file in the root gets a second slash |
| `UpgradeablePaths.BaseGetsSuffix` | lib/openzeppelin-contracts/scripts/migrate-imports.js:159-163 | a base without a dot after its first character gets Upgradeable at its end |
| `UpgradeablePaths.FormatParse` | lib/openzeppelin-contracts/scripts/migrate-imports.js:159-163 | putting a parsed path together gives it back, with a second slash if the file is in the root |
| `FormatLines.IndentationComposes` | lib/openzeppelin-contracts/scripts/generate/format-lines.js:5-14 | indenting by more levels pads each non-empty line of the less indented result |
| `FormatLines.BlockIsPadded` | lib/openzeppelin-contracts/scripts/generate/format-lines.js:7-11 | a nested block is its un-nested form with every non-empty line padded by four spaces |
| `FormatLines.IndentAppend` | lib/openzeppelin-contracts/scripts/generate/format-lines.js:5-7 | items come out in their order |
| `FormatLines.BlockIndents` | lib/openzeppelin-contracts/scripts/generate/format-lines.js:8-9 | a block is indented by one level more than where it stands |
| `FormatLines.LineIndents` | lib/openzeppelin-contracts/scripts/generate/format-lines.js:10-11 | a line gets four spaces a level in front of it, and an empty line none |
| `FormatLines.TextIndents` | lib/openzeppelin-contracts/scripts/generate/format-lines.js:11 | a text of several lines is indented line by line |
| `FormatLines.FormatAppend` | lib/openzeppelin-contracts/scripts/generate/format-lines.js:1-3 | what is formatted in parts is formatted one part after the other |
| `FormatLines.FormatLine` | lib/openzeppelin-contracts/scripts/generate/format-lines.js:1-3 | a line is followed by a newline |
| `FormatLines.FormattedSplitsBack` | lib/openzeppelin-contracts/scripts/generate/format-lines.js:1-3 | splitting the formatted text on newlines gives the indented lines back, and an empty last one |
| `FormatLines.SplitJoin` | lib/openzeppelin-contracts/scripts/generate/format-lines.js:1-3 | joining lines and splitting the text gives the lines back |
| `FormatLines.JoinSplit` | lib/openzeppelin-contracts/scripts/generate/format-lines.js:11 | splitting a text and joining its lines gives the text back |

## Left out

- Storage slot hashing in `_unsafeAccess`: it is ordinary access to the array, with the index proved in bounds.
- The three emitted copies of the checkpoint code are one class with the key and value limits as parameters.
- A `view` operation passed to a push is a function of its two arguments that may revert; what it could read elsewhere is not modelled.
- Sets that hold all 2^256 words, whose last index would not fit a word: array positions are unbounded.
- The variants of `get` that differ only in their revert message, and all revert messages.
- Gas and events.
- Contract names and console output of the inheritance check: a report holds the ids and, for each line, the direction and the chain.
- The reading of compiler outputs and the search of their syntax trees: sources come with their contract definitions.
- Character-level search in import migration: a source is a sequence of tokens, and a replacement takes the first token equal to the old path.
- Paths that end in a slash or in `..`, and paths that need normalising, in the naming of upgradeable files.
- The local order in which a contract declares its bases: the laws of linearizations say nothing about it.
- File discovery and writing in import migration, and the script that drives the generator.
- Full-precision multiplication, the other logarithms and the rounding variants of the math library.
- The lazy generator of the line formatter: indentation is computed on finite lists.
