# pacaya core, modelled in Dafny

This project models the discrete core of pacaya, a Java library for
factor graphs, belief propagation and NLP (dependency parsing, semantic
role labelling). It also proves properties of that model.

- **ErmaBp** is loopy belief propagation with a tape for reverse-mode
  differentiation. The model covers the part outside the numerics:
  - choosing the send order of each iteration: constant leaf messages at
    iteration -1, the rest after, and when an earlier order is reused;
  - the per-edge double buffer `message`/`newMessage`;
  - the counter of converged messages, driven by residual thresholds;
  - the tape, with its END_OF_EDGE_CREATION markers for PARALLEL updates;
  - the exact order in which `backward()` replays the tape.

  The functions of `ErmaForward` and `ErmaBackward` define the state after
  every step. The methods of the class `ErmaBps.ErmaBp` are proved to
  leave exactly that state. `forward()` never resets `numConverged`
  (ErmaBp.java:111 sets it once). The model keeps that behaviour, and
  `ErmaForward.ForwardAfterConvergedPass` states what follows from it.
- **VarSet / VarConfig** encode and decode the configuration index. It is
  a mixed-radix number in which the last variable is least significant.
  The model covers the exceptions of the source: overflow, a state out of
  range, an unknown state name, and an unassigned variable.
- **ProjDepTreeFactor** bookkeeping:
  - the n*n link variables;
  - the one-parent-per-token check and parent extraction;
  - the 0 / -infinity score rule;
  - gathering and scattering of TRUE/FALSE message entries by (parent, child).
- **SortedIntDoubleMap** and **SortedIntIntVector** are sparse containers
  kept as parallel arrays. The model covers binary search, insertion and
  removal by shifting in place, and the two-cursor walks of `binaryOp`,
  `countUnique` (which counts the indices in exactly one of the two
  arrays), `dot` and `hadamardProd`.
- **TemplateLanguage** covers the names and structures of feature
  templates, lookup of a description by its normalised name, and the
  required annotation types.
- **CoNLLXToken** covers parsing one CoNLL-X line and the "_" convention
  for missing fields.
- **SrlFactorGraph** and **SrlFgExamplesBuilder** cover which role and
  link variables and factors are created, and the gold training
  assignment.
- **TopoOrder** covers the forward and reverse call orders.
- **CorpusHandler** covers the dev/train split by a mask, annotation-type
  lists, and the split predicates and caches.
- **ClampFactor** covers the clamp table.
- **MutableInt** is a counter.

Java `int` arithmetic wraps explicitly (`JavaLang.Wrap32`) wherever the
source depends on it. In the ErmaBp, ErmaForward, ErmaGraph, ClampFactor
and ProjDepTree modules a Java `double` is `JavaLang.Double`: NaN, the two
infinities and the finite values as reals. SortedIntDoubleMaps,
CorpusHandlers and ProjDepMsgs use plain reals instead (see "Left out").
Rounding is not modelled.
Exceptions are the `Throw` case of `Wrappers.Result` and
`Wrappers.Outcome`, and `null` is `Option.None`. The following become
parameters:
- the orders returned by the breadth-first and random schedules;
- the random dev mask of `CorpusHandler.sample`;
- the tree test `ParentsArray.isDepTree`;
- the numeric computations of tensors and global factors;
- the initial residual held by a new `Messages`.

## Model

| member | source | states |
|---|---|---|
| VarSets.CalcNumConfigs | src/main/java/edu/jhu/pacaya/gm/model/VarSet.java:89-101 | the loop of `calcNumConfigs` computes the checked product: 0 for no variables, otherwise the product of the state counts with an IllegalStateException as soon as a running product is not positive |
| VarSets.ProductAsWrittenExact | src/main/java/edu/jhu/pacaya/gm/model/VarSet.java:93-100 | while no running product overflows, the checked product is the exact product of the state counts |
| VarSets.ProductAsWrittenPrefix | src/main/java/edu/jhu/pacaya/gm/model/VarSet.java:94-98 | once some prefix of the variables raises the overflow exception, the whole computation raises it |
| VarSets.ProductAsWrittenZero | src/main/java/edu/jhu/pacaya/gm/model/VarSet.java:95-97 | a variable with no states always raises the exception |
| VarSets.NumConfigsMissesOverflow | src/main/java/edu/jhu/pacaya/gm/model/VarSet.java:95-97 | two variables of 65537 states: the true product exceeds the `int` range, yet `calcNumConfigs` returns 131073 without raising |
| VarSets.ProductCheckedCorrect | src/main/java/edu/jhu/pacaya/gm/model/VarSet.java:96-98 | the corrected count is the exact product, and raises exactly when that product is zero or too large for an `int` |
| VarSets.NumConfigsAgree | src/main/java/edu/jhu/pacaya/gm/model/VarSet.java:89-101 | when nothing overflows, the count as written and the corrected count agree, and both give the product of the state counts |
| VarSets.DecodeFails | src/main/java/edu/jhu/pacaya/gm/model/VarSet.java:144-148 | decoding a configuration index fails (ArithmeticException) exactly when some variable has no states |
| VarSets.DecodeInRange | src/main/java/edu/jhu/pacaya/gm/model/VarSet.java:144-148 | a non-negative index decodes to one state per variable, each in [0, numStates) |
| VarSets.EncodeDecode | src/main/java/edu/jhu/pacaya/gm/model/VarSet.java:140-149 | every index below the number of configurations decodes to states whose mixed-radix index, last variable least significant, is that index |
| VarSets.DecodeEncode | src/main/java/edu/jhu/pacaya/gm/model/VarSet.java:140-149 | in-range states encode to an index that decodes back to the same states |
| VarSets.DecodeStep | src/main/java/edu/jhu/pacaya/gm/model/VarSet.java:145-147 | one step from the last variable: its state is the truncated remainder and the truncated quotient is decoded over the variables before it |
| VarSets.GetVarConfigAsArrayInto | src/main/java/edu/jhu/pacaya/gm/model/VarSet.java:140-149 | IllegalArgumentException, with the array untouched, unless its length is the number of variables; otherwise the array holds the decoded states, or ArithmeticException for a variable with no states |
| VarSets.GetVarConfigAsArray | src/main/java/edu/jhu/pacaya/gm/model/VarSet.java:131-135 | a new array of one decoded state per variable |
| VarSets.GetVarConfig | src/main/java/edu/jhu/pacaya/gm/model/VarSet.java:108-119 | the configuration that gives the i-th variable the i-th decoded state, over exactly these variables; `put`'s IllegalArgumentException when a decoded state is out of range |
| VarSets.GetVarConfigRoundTrip | src/main/java/edu/jhu/pacaya/gm/model/VarSet.java:108-119 | for every index in [0, number of configurations) the configuration `getVarConfig` builds has that index as its `getConfigIndex()` |
| VarSets.GetDims | src/main/java/edu/jhu/pacaya/gm/model/VarSet.java:154-160 | a new array whose i-th entry is the state count of the i-th variable |
| VarSets.OfTypeMembers | src/main/java/edu/jhu/pacaya/gm/model/VarSet.java:186-194 | the variables of a type are exactly those in the set whose type it is |
| VarSets.OfTypeDistinct | src/main/java/edu/jhu/pacaya/gm/model/VarSet.java:197-205 | filtering a set without duplicates gives a list without duplicates, so the VarSet `add` never meets one |
| VarSets.GetVarsOfType | src/main/java/edu/jhu/pacaya/gm/model/VarSet.java:186-194 | the loop collects the variables of the type in their original order |
| VarSets.GetVarSetOfType | src/main/java/edu/jhu/pacaya/gm/model/VarSet.java:181-183 | the VarSet version collects the same variables in the same order |
| VarSets.HasVarsOfType | src/main/java/edu/jhu/pacaya/gm/model/VarSet.java:207-214 | true iff some variable has the type, iff the filtered list is non-empty |
| Vars.StateOfName | src/main/java/edu/jhu/pacaya/gm/model/VarConfig.java:83 | `Var.getState(name)`: the first index whose state name is `name`, or -1 exactly when no state has that name |
| Vars.Dims | src/main/java/edu/jhu/pacaya/gm/model/VarSet.java:154-160 | one state count per variable, in order |
| Vars.ProductZero | src/main/java/edu/jhu/pacaya/gm/model/VarSet.java:95 | a variable with no states makes the product of the state counts zero |
| VarConfigs.EncodeBounds | src/main/java/edu/jhu/pacaya/gm/model/VarConfig.java:60-73 | an in-range assignment has its index in [0, product of the state counts) |
| VarConfigs.IndexFromExact | src/main/java/edu/jhu/pacaya/gm/model/VarConfig.java:63-71 | the loop continued from a partial index below the running product adds that product times the remaining variables' own index, with no overflow while the full product fits an `int` |
| VarConfigs.IndexOfSubsetExact | src/main/java/edu/jhu/pacaya/gm/model/VarConfig.java:60-73 | for assigned, in-range variables whose state product fits an `int`, `getConfigIndexOfSubset` is the mixed-radix index Σ state·(product of later state counts) |
| VarConfigs.IndexFromMissing | src/main/java/edu/jhu/pacaya/gm/model/VarConfig.java:65 | an unassigned variable makes the computation fail, as unboxing the missing state does |
| VarConfigs.Add | src/main/java/edu/jhu/pacaya/gm/model/VarConfig.java:96 | adding a variable to the variable set keeps it free of duplicates and adds exactly that variable |
| VarConfigs.AddAll | src/main/java/edu/jhu/pacaya/gm/model/VarConfig.java:78 | adding all of another set keeps it free of duplicates and gives the union |
| VarConfigs.VarConfig.constructor | src/main/java/edu/jhu/pacaya/gm/model/VarConfig.java:22-25 | the empty assignment |
| VarConfigs.VarConfig.Put | src/main/java/edu/jhu/pacaya/gm/model/VarConfig.java:91-97 | IllegalArgumentException, nothing changed, exactly when state < 0 or state >= numStates; otherwise the variable is assigned that state, added to the variables, and `contains` and `getState` see it |
| VarConfigs.VarConfig.PutName | src/main/java/edu/jhu/pacaya/gm/model/VarConfig.java:82-88 | an unknown state name (state -1) raises IllegalArgumentException; otherwise the named state is put |
| VarConfigs.VarConfig.PutAll | src/main/java/edu/jhu/pacaya/gm/model/VarConfig.java:76-79 | every variable of the other configuration takes its state there; the other assignments are unchanged |
| VarConfigs.VarConfig.GetState | src/main/java/edu/jhu/pacaya/gm/model/VarConfig.java:109-115 | the assigned state, always in range, or a RuntimeException exactly when the variable is unassigned |
| VarConfigs.VarConfig.GetStateOr | src/main/java/edu/jhu/pacaya/gm/model/VarConfig.java:118-125 | the assigned state, or the default when the variable is unassigned |
| VarConfigs.VarConfig.Size | src/main/java/edu/jhu/pacaya/gm/model/VarConfig.java:133-135 | the number of assigned variables |
| VarConfigs.VarConfig.GetConfigIndexOfSubset | src/main/java/edu/jhu/pacaya/gm/model/VarConfig.java:60-73 | the loop computes the index function, including its overflow exception and the failure on an unassigned variable |
| VarConfigs.VarConfig.GetConfigIndex | src/main/java/edu/jhu/pacaya/gm/model/VarConfig.java:50-52 | the index over the configuration's own variables |
| VarConfigs.VarConfig.GetIntersection | src/main/java/edu/jhu/pacaya/gm/model/VarConfig.java:146-155 | a new configuration holding exactly the variables assigned here and listed in `otherVars`, with unchanged states; its variables come in the order of `otherVars`, first occurrence kept |
| VarConfigs.VarConfig.GetSubset | src/main/java/edu/jhu/pacaya/gm/model/VarConfig.java:138-143 | IllegalStateException exactly when some given variable is unassigned; otherwise the intersection, which then holds every given variable in the given order, first occurrence kept |
| VarConfigs.FromStates | src/main/java/edu/jhu/pacaya/gm/model/VarConfig.java:28-34 | the configuration putting the i-th state on the i-th variable, in order, so that a repeated variable keeps its last state and its first position; IllegalArgumentException exactly when some state is out of range |
| VarConfigs.PutStates | src/main/java/edu/jhu/pacaya/gm/model/VarConfig.java:31-33 | the constructor's loop fails exactly when some state is out of range, with IllegalArgumentException; otherwise it has put every state in order |
| VarConfigs.Assign | src/main/java/edu/jhu/pacaya/gm/model/VarSet.java:113-117 | the assignment that maps exactly the given variables, the i-th to the i-th state |
| VarConfigs.AssignLast | src/main/java/edu/jhu/pacaya/gm/model/VarConfig.java:28-34 | putting the states in order leaves each variable with the state of its last occurrence |
| VarConfigs.AssignDistinct | src/main/java/edu/jhu/pacaya/gm/model/VarSet.java:113-117 | over distinct variables the i-th variable gets the i-th state |
| VarConfigs.DedupDistinct | src/main/java/edu/jhu/pacaya/gm/model/VarConfig.java:28-34 | adding distinct variables one by one keeps them all, in order |
| ProjDepTree.LinkVarOf | src/main/java/edu/jhu/pacaya/gm/model/globalfac/ProjDepTreeFactor.java:101 | a link variable of the factor's type for the arc (parent, child), with two states |
| ProjDepTree.Links | src/main/java/edu/jhu/pacaya/gm/model/globalfac/ProjDepTreeFactor.java:94-111 | one link variable per arc, in the order of the arcs |
| ProjDepTree.RowArcsMembers | src/main/java/edu/jhu/pacaya/gm/model/globalfac/ProjDepTreeFactor.java:98-103 | row i of the child links holds the arcs (i, j) for every j != i, each once |
| ProjDepTree.RowsArcsMembers | src/main/java/edu/jhu/pacaya/gm/model/globalfac/ProjDepTreeFactor.java:97-104 | the first k rows hold exactly the arcs (i, j) with i < k and j != i |
| ProjDepTree.RowsArcsDistinct | src/main/java/edu/jhu/pacaya/gm/model/globalfac/ProjDepTreeFactor.java:97-104 | no child arc is listed twice |
| ProjDepTree.RowsArcsLength | src/main/java/edu/jhu/pacaya/gm/model/globalfac/ProjDepTreeFactor.java:97-104 | k rows give k·(n-1) child arcs |
| ProjDepTree.RootArcsMembers | src/main/java/edu/jhu/pacaya/gm/model/globalfac/ProjDepTreeFactor.java:106-109 | the root arcs are (-1, j) for every child j, each once, n in all |
| ProjDepTree.TreeArcsMembers | src/main/java/edu/jhu/pacaya/gm/model/globalfac/ProjDepTreeFactor.java:94-111 | the arcs of the factor are exactly (p, c) with -1 <= p < n, 0 <= c < n, p != c, without repetition, n² in all |
| ProjDepTree.LinksMembers | src/main/java/edu/jhu/pacaya/gm/model/globalfac/ProjDepTreeFactor.java:100-101 | the link variables are exactly the links of the listed arcs, and distinct arcs give distinct variables |
| ProjDepTree.TreeVarsMembers | src/main/java/edu/jhu/pacaya/gm/model/globalfac/ProjDepTreeFactor.java:94-111 | the variable set holds exactly the links (p, c) with -1 <= p < n, 0 <= c < n, p != c, each once: n·(n-1) child links and n root links |
| ProjDepTree.AddRow | src/main/java/edu/jhu/pacaya/gm/model/globalfac/ProjDepTreeFactor.java:98-103 | the inner loop of `createVarSet` adds the links of row i after those of the rows before |
| ProjDepTree.AddRoots | src/main/java/edu/jhu/pacaya/gm/model/globalfac/ProjDepTreeFactor.java:106-109 | the root loop appends the n root links after all child links |
| ProjDepTree.CreateVarSet | src/main/java/edu/jhu/pacaya/gm/model/globalfac/ProjDepTreeFactor.java:94-111 | `createVarSet(n, type)` builds exactly the child links row by row, then the root links |
| ProjDepTree.FileLinks | src/main/java/edu/jhu/pacaya/gm/model/globalfac/ProjDepTreeFactor.java:66-76 | the constructor's loop files every root link under its child and every other link under (parent, child); the diagonal stays empty |
| ProjDepTree.ProjDepTreeFactor.constructor | src/main/java/edu/jhu/pacaya/gm/model/globalfac/ProjDepTreeFactor.java:58-77 | the factor over n tokens, its variable set and its two link tables |
| ProjDepTree.ProjDepTreeFactor.GetLinkVar | src/main/java/edu/jhu/pacaya/gm/model/globalfac/ProjDepTreeFactor.java:86-92 | the link with that parent and child, from the root table when the parent is -1; no link on the diagonal; ArrayIndexOutOfBoundsException outside the tables |
| ProjDepTree.ProjDepTreeFactor.GetLogUnormalizedScore | src/main/java/edu/jhu/pacaya/gm/model/globalfac/ProjDepTreeFactor.java:211-224 | the score of a configuration as the score function defines it: log-zero unless one parent per token and the tree check pass, log-one then |
| ProjDepTree.ProjDepTreeFactor.GetLogUnormalizedScoreOfIndex | src/main/java/edu/jhu/pacaya/gm/model/globalfac/ProjDepTreeFactor.java:204-209 | the score of the configuration that `getVarConfig(configId)` decodes over the factor's variables |
| ProjDepTree.OneParentPerToken | src/main/java/edu/jhu/pacaya/gm/model/globalfac/ProjDepTreeFactor.java:229-245 | an out-of-range child raises ArrayIndexOutOfBoundsException; true only when the scan fills every child's parent |
| ProjDepTree.ParentsOf | src/main/java/edu/jhu/pacaya/gm/model/globalfac/ProjDepTreeFactor.java:258-274 | one parent per token; IllegalStateException exactly when the scan meets a second TRUE link into a child |
| ProjDepTree.ScanAbsorbs | src/main/java/edu/jhu/pacaya/gm/model/globalfac/ProjDepTreeFactor.java:236-239 | once the scan has stopped on a duplicate or an out-of-range child, later variables do not change the outcome |
| ProjDepTree.HasOneParentPerToken | src/main/java/edu/jhu/pacaya/gm/model/globalfac/ProjDepTreeFactor.java:229-245 | the loop of `hasOneParentPerToken` computes the specification above |
| ProjDepTree.GetParents | src/main/java/edu/jhu/pacaya/gm/model/globalfac/ProjDepTreeFactor.java:258-274 | the loop of `getParents` returns a new array holding the specification's parents, or raises its exception |
| ProjDepTree.ParentUnsetIff | src/main/java/edu/jhu/pacaya/gm/model/globalfac/ProjDepTreeFactor.java:260-272 | a child keeps the -2 mark exactly when no TRUE link points into it |
| ProjDepTree.ScanCharacterised | src/main/java/edu/jhu/pacaya/gm/model/globalfac/ProjDepTreeFactor.java:229-274 | with in-range links the scan stops on a duplicate exactly when some child has two or more TRUE incoming links; otherwise each child's parent is that of its TRUE link, or -2 |
| ProjDepTree.OneParentIff | src/main/java/edu/jhu/pacaya/gm/model/globalfac/ProjDepTreeFactor.java:229-245 | `hasOneParentPerToken` is true iff every token 0..n-1 has exactly one TRUE incoming link |
| ProjDepTree.ParentsOfIff | src/main/java/edu/jhu/pacaya/gm/model/globalfac/ProjDepTreeFactor.java:258-274 | `getParents` succeeds iff no token has two TRUE parents, and then maps each child to the parent of its TRUE link, or -2; its only exception is IllegalStateException |
| ProjDepTree.TreeLinksInRange | src/main/java/edu/jhu/pacaya/gm/model/globalfac/ProjDepTreeFactor.java:94-111 | the factor's own links all have parent and child in range |
| ProjDepTree.LeftBranchingParents | src/test/java/edu/jhu/pacaya/gm/model/globalfac/ProjDepTreeFactorTest.java:60-72 | for the left-branching tree (each token's parent is the token before it), `getParents` gives c-1 for each child c and `hasOneParentPerToken` is true |
| ProjDepTree.ExtraParent | src/test/java/edu/jhu/pacaya/gm/model/globalfac/ProjDepTreeFactorTest.java:38-57 | adding a second TRUE parent to a token of the left-branching tree makes `hasOneParentPerToken` false |
| ProjDepTree.MissingParent | src/test/java/edu/jhu/pacaya/gm/model/globalfac/ProjDepTreeFactorTest.java:38-57 | removing a token's TRUE parent makes `hasOneParentPerToken` false |
| ProjDepTree.LeftBranchingSix | src/test/java/edu/jhu/pacaya/gm/model/globalfac/ProjDepTreeFactorTest.java:60-72 | six tokens in a left-branching tree have parents [-1, 0, 1, 2, 3, 4] |
| ProjDepTree.ScoreOfIndexRule | src/main/java/edu/jhu/pacaya/gm/model/globalfac/ProjDepTreeFactor.java:204-224 | a non-negative configuration index always gets a score, which is 0.0 or -infinity; the only failure is `put`'s IllegalArgumentException |
| ProjDepTree.ScoreRule | src/main/java/edu/jhu/pacaya/gm/model/globalfac/ProjDepTreeFactor.java:211-224 | the score is 0.0 iff every token has exactly one TRUE parent and the parents array passes the tree check, and -infinity otherwise |
| ProjDepTree.ParentTable | src/main/java/edu/jhu/pacaya/gm/model/globalfac/ProjDepTreeFactor.java:218 | the parents array passed to the tree check: each child's TRUE parent, or -2 |
| ProjDepMsgs.NewEdgeScores | src/main/java/edu/jhu/pacaya/gm/model/globalfac/ProjDepTreeFactor.java:285 | a table of n root scores and n×n child scores, all set to the algebra's zero |
| ProjDepMsgs.GetScore | src/main/java/edu/jhu/pacaya/gm/model/globalfac/ProjDepTreeFactor.java:306 | the score of an arc in the table, or ArrayIndexOutOfBoundsException for an arc outside it |
| ProjDepMsgs.SetScore | src/main/java/edu/jhu/pacaya/gm/model/globalfac/ProjDepTreeFactor.java:289 | setting an arc's score succeeds exactly for an arc inside the table |
| ProjDepMsgs.SetGetScore | src/main/java/edu/jhu/pacaya/gm/model/globalfac/ProjDepTreeFactor.java:289 | after setting an arc's score, that arc reads the new score and every other arc its old one |
| ProjDepMsgs.ValueAt | src/main/java/edu/jhu/pacaya/gm/model/globalfac/ProjDepTreeFactor.java:288 | reading entry tf of a message succeeds exactly when tf is inside it |
| ProjDepMsgs.GatherValues | src/main/java/edu/jhu/pacaya/gm/model/globalfac/ProjDepTreeFactor.java:283-292 | when every message names an arc of the table and has entry tf, the table keeps its arcs and each arc holds the tf value of the last message on it, or its old score |
| ProjDepMsgs.GetMsgs | src/main/java/edu/jhu/pacaya/gm/model/globalfac/ProjDepTreeFactor.java:283-292 | the loop of `getMsgs` computes the table defined above, starting from all zeros |
| ProjDepMsgs.GatherAbsorbs | src/main/java/edu/jhu/pacaya/gm/model/globalfac/ProjDepTreeFactor.java:286-290 | an exception part-way through the messages is the exception of the whole call |
| ProjDepMsgs.UpdateValue | src/main/java/edu/jhu/pacaya/gm/model/globalfac/ProjDepTreeFactor.java:307 | overwriting or adding to entry tf keeps the message's variables and size, and fails exactly outside it |
| ProjDepMsgs.ScatterMsgs | src/main/java/edu/jhu/pacaya/gm/model/globalfac/ProjDepTreeFactor.java:301-326 | the loop of `setMsgs` (add = false) and `addMsgs` (add = true) updates the messages as the scatter function defines, up to the first exception |
| ProjDepMsgs.ScatterAbsorbs | src/main/java/edu/jhu/pacaya/gm/model/globalfac/ProjDepTreeFactor.java:304-308 | an exception on message k leaves the messages from k on unchanged and is the outcome of the call |
| ProjDepMsgs.ScatterValues | src/main/java/edu/jhu/pacaya/gm/model/globalfac/ProjDepTreeFactor.java:301-326 | when every message can be updated, the call succeeds and message i becomes its own update |
| ProjDepMsgs.ScatterOneValue | src/main/java/edu/jhu/pacaya/gm/model/globalfac/ProjDepTreeFactor.java:305-307 | one update changes only entry tf, to the table score of the message's arc, or to the old entry plus that score |
| ProjDepMsgs.SetOfGetMsgs | src/main/java/edu/jhu/pacaya/gm/model/globalfac/ProjDepTreeFactor.java:283-309 | `setMsgs` of the table `getMsgs` read, on messages with distinct arcs, leaves every message as it was |
| SortedArrays.Position | src/edu/jhu/hltcoe/util/vector/SortedIntDoubleMap.java:88 | the insertion point of a key: every earlier index is smaller and the index there, if any, is not |
| SortedArrays.PositionUnique | src/edu/jhu/hltcoe/util/vector/SortedIntDoubleMap.java:88 | the insertion point is the only position with that property |
| SortedArrays.SearchFinds | src/edu/jhu/hltcoe/util/vector/SortedIntDoubleMap.java:51 | `Arrays.binarySearch` over sorted indices is non-negative iff the key is present, then at its position; otherwise it is -(insertion point) - 1 |
| SortedArrays.InsertAt | src/edu/jhu/hltcoe/util/vector/SortedIntDoubleMap.java:94-106 | inserting at i keeps the entries before i, puts the new one at i and shifts the rest right by one |
| SortedArrays.RemoveAt | src/edu/jhu/hltcoe/util/vector/SortedIntDoubleMap.java:76-77 | removing at i keeps the entries before i and shifts the rest left by one |
| SortedArrays.GetAt | src/edu/jhu/hltcoe/util/vector/SortedIntDoubleMap.java:54-60 | a lookup finds a key iff it is among the indices, and gives the value stored beside it |
| SortedArrays.InsertSorted | src/edu/jhu/hltcoe/util/vector/SortedIntDoubleMap.java:88-91 | inserting a new key at its insertion point keeps the indices strictly ascending |
| SortedArrays.RemoveSorted | src/edu/jhu/hltcoe/util/vector/SortedIntDoubleMap.java:76-78 | removing an entry keeps the indices strictly ascending |
| SortedArrays.PutSpecSorted | src/edu/jhu/hltcoe/util/vector/SortedIntDoubleMap.java:81-92 | `put` keeps the indices strictly ascending |
| SortedArrays.PutSpecGet | src/edu/jhu/hltcoe/util/vector/SortedIntDoubleMap.java:81-92 | after `put(k, v)` the key k maps to v and every other key to what it mapped to before |
| SortedArrays.RemoveSpecGet | src/edu/jhu/hltcoe/util/vector/SortedIntDoubleMap.java:70-79 | after `remove(k)` the indices stay ascending, k is absent and every other key keeps its value |
| SortedArrays.BinarySearch | src/edu/jhu/hltcoe/util/vector/SortedIntDoubleMap.java:51 | the loop of a binary search over the first `used` indices returns what the search function specifies |
| SortedArrays.InsertInto | src/edu/jhu/hltcoe/util/vector/SortedIntDoubleMap.java:94-106 | `insert(array, i, val)`: growing the array when full, the first used+1 entries are the old ones with val inserted at i |
| SortedArrays.Grow | src/edu/jhu/hltcoe/util/vector/SortedIntDoubleMap.java:95-98 | a grown copy has at least the asked capacity and starts with the old entries |
| SortedArrays.RemoveFrom | src/edu/jhu/hltcoe/util/vector/SortedIntDoubleMap.java:76-77 | the in-place left shift leaves the first used-1 entries as the old ones with entry i removed, and the rest untouched |
| SortedArrays.SkipBelow | src/main/java/edu/jhu/util/vector/SortedIntIntVector.java:65-71 | advancing a cursor over the indices below a key stops at the first index not below it, and the key is present iff it sits there |
| SortedIntDoubleMaps.CheckArrays | src/edu/jhu/hltcoe/util/vector/SortedIntDoubleMap.java:28-33 | the array constructor's checks pass iff the indices are strictly ascending and the values ascending; otherwise IllegalStateException |
| SortedIntDoubleMaps.SortedIntDoubleMap.constructor | src/edu/jhu/hltcoe/util/vector/SortedIntDoubleMap.java:21-25 | the empty map |
| SortedIntDoubleMaps.SortedIntDoubleMap.Wrap | src/edu/jhu/hltcoe/util/vector/SortedIntDoubleMap.java:35-37 | a map that uses the given arrays; its keys are the whole index array and its values the matching prefix of the data array |
| SortedIntDoubleMaps.SortedIntDoubleMap.FromArrays | src/edu/jhu/hltcoe/util/vector/SortedIntDoubleMap.java:27-38 | IllegalStateException exactly when the indices are not strictly ascending or the whole value array is not ascending; otherwise the map over those arrays, with as many entries as indices, even when the value array is longer |
| SortedIntDoubleMaps.SortedIntDoubleMap.Copy | src/edu/jhu/hltcoe/util/vector/SortedIntDoubleMap.java:40-44 | a map with the same entries in new arrays |
| SortedIntDoubleMaps.SortedIntDoubleMap.Clear | src/edu/jhu/hltcoe/util/vector/SortedIntDoubleMap.java:46-48 | no entries in use; the arrays are kept |
| SortedIntDoubleMaps.SortedIntDoubleMap.Contains | src/edu/jhu/hltcoe/util/vector/SortedIntDoubleMap.java:50-52 | true iff the key is among the entries in use |
| SortedIntDoubleMaps.SortedIntDoubleMap.GetOrThrow | src/edu/jhu/hltcoe/util/vector/SortedIntDoubleMap.java:54-60 | the key's value, or IllegalArgumentException exactly when the key is absent |
| SortedIntDoubleMaps.SortedIntDoubleMap.GetWithDefault | src/edu/jhu/hltcoe/util/vector/SortedIntDoubleMap.java:62-68 | the key's value, or the default when the key is absent |
| SortedIntDoubleMaps.SortedIntDoubleMap.Remove | src/edu/jhu/hltcoe/util/vector/SortedIntDoubleMap.java:70-79 | IllegalArgumentException, nothing changed, exactly when the key is absent; otherwise that entry is deleted and the later ones shift left |
| SortedIntDoubleMaps.SortedIntDoubleMap.Put | src/edu/jhu/hltcoe/util/vector/SortedIntDoubleMap.java:81-120 | an existing key gets the new value; a new key is inserted at its insertion point with the later entries shifted right; the indices stay strictly ascending |
| SortedIntDoubleMaps.SortedIntDoubleMap.Size | src/edu/jhu/hltcoe/util/vector/SortedIntDoubleMap.java:162-164 | the number of entries in use |
| SortedIntDoubleMaps.SortedIntDoubleMap.GetIndices | src/edu/jhu/hltcoe/util/vector/SortedIntDoubleMap.java:173-182 | exactly the indices in use: the array itself when it is full, otherwise a new copy |
| SortedIntDoubleMaps.SortedIntDoubleMap.GetValues | src/edu/jhu/hltcoe/util/vector/SortedIntDoubleMap.java:187-196 | exactly the values in use: the array itself when it is full, otherwise a new copy |
| SortedIntDoubleMaps.PutThenGet | src/edu/jhu/hltcoe/util/vector/SortedIntDoubleMap.java:81-92 | after `put(k, v)`, `contains(k)` holds and `get(k)` is v |
| IntEntries.MergeKeys | src/main/java/edu/jhu/util/vector/SortedIntIntVector.java:181-231 | the merged indices are strictly ascending and are exactly the union of the two index sets |
| IntEntries.MergeGet | src/main/java/edu/jhu/util/vector/SortedIntIntVector.java:181-231 | after `binaryOp` each index of either vector holds lambda(v1, v2), with 0 for a side that lacks it, and no other index is present |
| IntEntries.MergeFront | src/main/java/edu/jhu/util/vector/SortedIntIntVector.java:186-226 | one step of the two-cursor loop: the smaller front index is emitted with 0 for the other side, equal front indices are combined and both cursors advance |
| IntEntries.MergeAsWritten | src/main/java/edu/jhu/util/vector/SortedIntIntVector.java:186-226 | the merge as written, comparing by the 32-bit difference e1 - e2; it yields one value per index |
| IntEntries.MergeAsWrittenAgrees | src/main/java/edu/jhu/util/vector/SortedIntIntVector.java:192 | with non-negative indices the difference cannot wrap, so the merge as written is the intended merge |
| IntEntries.MergeAsWrittenUnsorted | src/main/java/edu/jhu/util/vector/SortedIntIntVector.java:192 | indices -2 and 2147483647: the difference wraps to a positive number and the result [2147483647, -2] is not sorted, while comparing the indices gives [-2, 2147483647] |
| IntEntries.CountUniqueSymDiff | src/main/java/edu/jhu/util/vector/SortedIntIntVector.java:238-262 | on sorted index arrays `countUnique` is the number of indices that occur in exactly one of the two arrays: a shared index is passed over at :249-252 without being counted |
| IntEntries.CountUniqueZero | src/main/java/edu/jhu/util/vector/SortedIntIntVector.java:238-262 | on sorted index arrays `countUnique` is 0 exactly when both arrays hold the same indices |
| IntEntries.PutSpecAppends | src/main/java/edu/jhu/util/vector/SortedIntIntVector.java:163 | setting an index above every present one appends it, as the Hadamard loop does |
| IntEntries.DenseSumBeyond | src/main/java/edu/jhu/util/vector/SortedIntIntVector.java:60 | entries whose index is not below the dense array's length contribute nothing |
| IntEntries.DenseTermsSorted | src/main/java/edu/jhu/util/vector/SortedIntIntVector.java:58-64 | `dot(int[])` over sorted indices raises ArrayIndexOutOfBoundsException exactly when the first index is negative; otherwise it is the sum over the entries whose index is below the array's length |
| IntEntries.DotCursor | src/main/java/edu/jhu/util/vector/SortedIntIntVector.java:72-83 | with the other vector's cursor at the first index not below this vector's c-th index, one more entry adds the product of the two values exactly when the indices match there, and nothing otherwise |
| IntEntries.HadamardCursor | src/main/java/edu/jhu/util/vector/SortedIntIntVector.java:158-169 | with the other vector's cursor at the first index not below this vector's c-th index, one more entry appends that index with the wrapped product exactly when the indices match there, and nothing otherwise |
| IntEntries.HadamardKeys | src/main/java/edu/jhu/util/vector/SortedIntIntVector.java:155-171 | the product's indices are strictly ascending and all come from this vector |
| IntEntries.HadamardGet | src/main/java/edu/jhu/util/vector/SortedIntIntVector.java:155-171 | the Hadamard product holds exactly the indices present in both vectors, each with the 32-bit product of the two values |
| IntEntries.DotIsHadamardSum | src/main/java/edu/jhu/util/vector/SortedIntIntVector.java:67-88 | the sparse dot product equals, modulo 2^32, the sum of the Hadamard product's values |
| IntEntries.NoZerosLength | src/main/java/edu/jhu/util/vector/SortedIntIntVector.java:99-127 | no entry is dropped iff no value is 0, and then the entries are unchanged; the kept values are never 0 |
| IntEntries.NoZerosKeys | src/main/java/edu/jhu/util/vector/SortedIntIntVector.java:116-123 | dropping the zeros keeps the order: the kept indices stay strictly ascending |
| IntEntries.NoZerosGet | src/main/java/edu/jhu/util/vector/SortedIntIntVector.java:94-128 | dropping the zeros keeps every index's value, and an index stays present iff its value is not 0 |
| IntEntries.EqualsIff | src/main/java/edu/jhu/util/vector/SortedIntIntVector.java:296-320 | the checks of `equals` on the zero-free vectors pass iff the two vectors have the same value, 0 when absent, at every index |
| IntEntries.SortedSameElements | src/main/java/edu/jhu/util/vector/SortedIntIntVector.java:303-316 | two strictly ascending index lists with the same elements are equal |
| SortedIntIntVectors.ToArray | src/main/java/edu/jhu/util/vector/SortedIntIntVector.java:229-230 | `toNativeArray`: a new array holding the list |
| SortedIntIntVectors.SortedIntIntVector.constructor | src/main/java/edu/jhu/util/vector/SortedIntIntVector.java:20-22 | the empty vector |
| SortedIntIntVectors.SortedIntIntVector.Wrap | src/main/java/edu/jhu/util/vector/SortedIntIntVector.java:24-26 | a vector over the given index and value arrays |
| SortedIntIntVectors.SortedIntIntVector.Dense | src/main/java/edu/jhu/util/vector/SortedIntIntVector.java:32-34 | the vector of a dense row: index i holds entry i |
| SortedIntIntVectors.SortedIntIntVector.Copy | src/main/java/edu/jhu/util/vector/SortedIntIntVector.java:28-30 | a vector with the same entries in new arrays |
| SortedIntIntVectors.SortedIntIntVector.GetWithDefault | src/main/java/edu/jhu/util/vector/SortedIntIntVector.java:38 | the stored value at an index, or the default when it is absent |
| SortedIntIntVectors.SortedIntIntVector.GetAt0 | src/main/java/edu/jhu/util/vector/SortedIntIntVector.java:46-49 | `get(idx)`: the stored value, or 0 for an absent index |
| SortedIntIntVectors.SortedIntIntVector.Put | src/main/java/edu/jhu/util/vector/SortedIntIntVector.java:42-44 | `set(idx, val)`: the sorted-map put, keeping the indices strictly ascending |
| SortedIntIntVectors.SortedIntIntVector.Add | src/main/java/edu/jhu/util/vector/SortedIntIntVector.java:37-40 | `add(idx, val)` stores the old value (0 when absent) plus val, with 32-bit wrap-around |
| SortedIntIntVectors.SortedIntIntVector.DotArray | src/main/java/edu/jhu/util/vector/SortedIntIntVector.java:58-64 | the loop computes the dense dot product, wrapped to 32 bits, or its index exception |
| SortedIntIntVectors.SortedIntIntVector.Dot | src/main/java/edu/jhu/util/vector/SortedIntIntVector.java:67-88 | the two-cursor loop computes the sum of products over the indices present in both vectors, wrapped to 32 bits |
| SortedIntIntVectors.SortedIntIntVector.HadamardProd | src/main/java/edu/jhu/util/vector/SortedIntIntVector.java:155-171 | a new vector holding the Hadamard product defined above |
| SortedIntIntVectors.SortedIntIntVector.BinaryOp | src/main/java/edu/jhu/util/vector/SortedIntIntVector.java:181-231 | the vector becomes the merge of itself and the other under lambda, in new arrays |
| SortedIntIntVectors.SortedIntIntVector.AddVector | src/main/java/edu/jhu/util/vector/SortedIntIntVector.java:173-175 | `add(other)` is the merge under 32-bit addition |
| SortedIntIntVectors.SortedIntIntVector.Subtract | src/main/java/edu/jhu/util/vector/SortedIntIntVector.java:177-179 | `subtract(other)` is the merge under 32-bit subtraction |
| SortedIntIntVectors.SortedIntIntVector.Zero | src/main/java/edu/jhu/util/vector/SortedIntIntVector.java:137-141 | every value set to 0, indices and used count kept, and the same object returned |
| SortedIntIntVectors.SortedIntIntVector.SetFrom | src/main/java/edu/jhu/util/vector/SortedIntIntVector.java:144-148 | `set(other)`: copies of the other vector's entries |
| SortedIntIntVectors.SortedIntIntVector.GetIndices | src/main/java/edu/jhu/util/vector/SortedIntIntVector.java:95 | exactly the indices in use: the array itself when full, otherwise a new copy |
| SortedIntIntVectors.SortedIntIntVector.GetValues | src/main/java/edu/jhu/util/vector/SortedIntIntVector.java:96 | exactly the values in use: the array itself when full, otherwise a new copy |
| SortedIntIntVectors.SortedIntIntVector.GetElementwiseSum | src/main/java/edu/jhu/util/vector/SortedIntIntVector.java:264-268 | a new vector holding the sum merge; this vector is unchanged |
| SortedIntIntVectors.SortedIntIntVector.GetElementwiseDiff | src/main/java/edu/jhu/util/vector/SortedIntIntVector.java:270-274 | a new vector holding the difference merge; this vector is unchanged |
| SortedIntIntVectors.SortedIntIntVector.Equals | src/main/java/edu/jhu/util/vector/SortedIntIntVector.java:296-320 | true iff the two vectors agree at every index, explicit zeros ignored |
| SortedIntIntVectors.SortedIntIntVector.Size | src/main/java/edu/jhu/util/vector/SortedIntIntVector.java:303 | the number of entries in use |
| SortedIntIntVectors.MergeArrays | src/main/java/edu/jhu/util/vector/SortedIntIntVector.java:184-226 | the three loops of `binaryOp` compute the merge of the two vectors' entries |
| SortedIntIntVectors.MergeTails | src/main/java/edu/jhu/util/vector/SortedIntIntVector.java:212-226 | once one list is used up, the two copying loops append exactly the merge of what remains, each value combined with 0 |
| SortedIntIntVectors.CountUniqueOf | src/main/java/edu/jhu/util/vector/SortedIntIntVector.java:238-262 | the loops of `countUnique` compute `CountUnique`, which counts an index below the other cursor's and passes over a shared one |
| SortedIntIntVectors.GetWithNoZeroValues | src/main/java/edu/jhu/util/vector/SortedIntIntVector.java:94-128 | the entries with value 0 dropped, order kept; the same object exactly when no value is 0 |
| SortedIntIntVectors.CountNonZeros | src/main/java/edu/jhu/util/vector/SortedIntIntVector.java:99-108 | the first loop marks the non-zero values and counts them |
| SortedIntIntVectors.CopyNonZeros | src/main/java/edu/jhu/util/vector/SortedIntIntVector.java:113-123 | the second loop copies exactly the marked entries, in order, into new arrays |
| SortedIntIntVectors.ReadsBack | src/main/java/edu/jhu/util/vector/SortedIntIntVector.java:307-311 | the loop over one vector's entries passes iff each value equals the other vector's value at that index |
| TemplateLanguage.NormalizeName | src/main/java/edu/jhu/featurize/TemplateLanguage.java:231-235 | the result has no whitespace and is no longer than the input |
| TemplateLanguage.NormalizeNameFixed | src/main/java/edu/jhu/featurize/TemplateLanguage.java:231-235 | a name is left unchanged iff it has no whitespace |
| TemplateLanguage.NormalizeNameIdempotent | src/main/java/edu/jhu/featurize/TemplateLanguage.java:231-235 | normalising twice is normalising once |
| TemplateLanguage.Desc | src/main/java/edu/jhu/featurize/TemplateLanguage.java:213-218 | a `Description` keeps its object, description and levels, and its name is the normalised, whitespace-free name |
| TemplateLanguage.TokPropertyDesc | src/main/java/edu/jhu/featurize/TemplateLanguage.java:113-122 | the description of a token property describes that property |
| TemplateLanguage.ModifierDesc | src/main/java/edu/jhu/featurize/TemplateLanguage.java:135-153 | the description of a position modifier describes that modifier |
| TemplateLanguage.PositionListDesc | src/main/java/edu/jhu/featurize/TemplateLanguage.java:156-162 | the description of a position list describes that list |
| TemplateLanguage.ListModifierDesc | src/main/java/edu/jhu/featurize/TemplateLanguage.java:165-167 | the list modifiers are described with no required annotation level |
| TemplateLanguage.OtherFeatDesc | src/main/java/edu/jhu/featurize/TemplateLanguage.java:170-174 | the description of an additional feature describes that feature |
| TemplateLanguage.DescOf | src/main/java/edu/jhu/featurize/TemplateLanguage.java:111-184 | every structure element has its own description |
| TemplateLanguage.Descs | src/main/java/edu/jhu/featurize/TemplateLanguage.java:111-184 | the static `desc` list, one description per element in declaration order |
| TemplateLanguage.ElemDescribed | src/main/java/edu/jhu/featurize/TemplateLanguage.java:111-184 | every element of every enum used in the language is in the `desc` list |
| TemplateLanguage.ByKeyLookup | src/main/java/edu/jhu/featurize/TemplateLanguage.java:185-193 | a key is in the map built by the put loop iff some description has it, and it maps to the last such description |
| TemplateLanguage.BuildMaps | src/main/java/edu/jhu/featurize/TemplateLanguage.java:185-193 | the loop builds `enumDescMap` keyed by object and `nameDescMap` keyed by name, later entries overwriting earlier ones |
| TemplateLanguage.ByObjOfDescs | src/main/java/edu/jhu/featurize/TemplateLanguage.java:185-187 | when every description is its object's own, the object map returns that description |
| TemplateLanguage.EveryElemDescribed | src/main/java/edu/jhu/featurize/TemplateLanguage.java:104-193 | `enumDescMap` maps every element to its own description |
| TemplateLanguage.GetDescByName | src/main/java/edu/jhu/featurize/TemplateLanguage.java:98-101 | the lookup finds a description iff the normalised name is a key, and then returns that key's description |
| TemplateLanguage.GetDescByNameNormal | src/main/java/edu/jhu/featurize/TemplateLanguage.java:98-101 | looking up a name and its normalised form give the same answer |
| TemplateLanguage.GetDescByNameFinds | src/main/java/edu/jhu/featurize/TemplateLanguage.java:98-101 | a name whose normal form is the name of the last description with that name finds that description |
| TemplateLanguage.NewFeatTemplate3AsWritten | src/main/java/edu/jhu/featurize/TemplateLanguage.java:331-336 | the constructor as written never stores `includeDir`, so the field stays false |
| TemplateLanguage.NewFeatTemplate3 | src/main/java/edu/jhu/featurize/TemplateLanguage.java:331-336 | the corrected constructor stores `includeDir` |
| TemplateLanguage.Structure | src/main/java/edu/jhu/featurize/TemplateLanguage.java:282-284 | `getStructure()` of the first, second and fourth template kinds: position, modifier and property, or the feature alone |
| TemplateLanguage.FeatTemplate3AsWrittenDropsDir | src/main/java/edu/jhu/featurize/TemplateLanguage.java:331-343 | built with includeDir true, the template as written has structure pl, prop, prop with no DIR, where the corrected one has DIR |
| TemplateLanguage.FeatTemplate3Dir | src/main/java/edu/jhu/featurize/TemplateLanguage.java:337-343 | the corrected template's structure holds DIR iff includeDir, and starts with pl, prop and ends with prop |
| TemplateLanguage.TokPropertyNamePlain | src/main/java/edu/jhu/featurize/TemplateLanguage.java:35-39 | token property names contain neither separator |
| TemplateLanguage.ModifierNamePlain | src/main/java/edu/jhu/featurize/TemplateLanguage.java:52-61 | position modifier names contain neither separator |
| TemplateLanguage.PositionListNamePlain | src/main/java/edu/jhu/featurize/TemplateLanguage.java:62-66 | position list names contain neither separator |
| TemplateLanguage.OtherNamesPlain | src/main/java/edu/jhu/featurize/TemplateLanguage.java:40-93 | list modifier, feature, position and property-list names contain neither separator |
| TemplateLanguage.PartsPlain | src/main/java/edu/jhu/featurize/TemplateLanguage.java:277 | a simple template's name has at least one part and no part contains a separator |
| TemplateLanguage.NameSplits | src/main/java/edu/jhu/featurize/TemplateLanguage.java:243-244 | splitting a simple template's name at "." gives back its parts, and the name holds no "+" |
| TemplateLanguage.Leaves | src/main/java/edu/jhu/featurize/TemplateLanguage.java:374-387 | flattening a bigram tree gives a non-empty list of simple templates |
| TemplateLanguage.NamesAppend | src/main/java/edu/jhu/featurize/TemplateLanguage.java:378 | the names of two lists of templates concatenate |
| TemplateLanguage.NameOfLeaves | src/main/java/edu/jhu/featurize/TemplateLanguage.java:377-381 | a template's name is its leaves' names joined by "+" |
| TemplateLanguage.BigramNameSplits | src/main/java/edu/jhu/featurize/TemplateLanguage.java:243-244 | splitting any template's name at "+" gives back the names of its simple templates |
| TemplateLanguage.StructuresAppend | src/main/java/edu/jhu/featurize/TemplateLanguage.java:383-384 | the structures of two lists of templates concatenate |
| TemplateLanguage.StructureOfLeaves | src/main/java/edu/jhu/featurize/TemplateLanguage.java:382-386 | a bigram's structure is its leaves' structures in order |
| TemplateLanguage.LabelDepTreeNeedsBoth | src/main/java/edu/jhu/featurize/TemplateLanguage.java:410-413 | LABEL_DEP_TREE is present iff the parents and the dependency relations are |
| TemplateLanguage.HasRequiredAnnotationTypes | src/main/java/edu/jhu/featurize/TemplateLanguage.java:391-398 | true iff the sentence has every annotation type of the set |
| TemplateLanguage.Levels | src/main/java/edu/jhu/featurize/TemplateLanguage.java:228-230 | the set of a description's required levels |
| TemplateLanguage.ElemLevelsIn | src/main/java/edu/jhu/featurize/TemplateLanguage.java:424-428 | a type is collected for a structure iff some element of it requires that type |
| TemplateLanguage.TemplateLevelsIn | src/main/java/edu/jhu/featurize/TemplateLanguage.java:421-431 | a type is collected iff some template has an element that requires it |
| TemplateLanguage.RequiredAnnotationTypes | src/main/java/edu/jhu/featurize/TemplateLanguage.java:421-431 | the collection fails (a NullPointerException on an undescribed element) iff some structure element has no description |
| TemplateLanguage.RequiredAnnotationTypesDefined | src/main/java/edu/jhu/featurize/TemplateLanguage.java:421-431 | with the static maps the collection never fails |
| TemplateLanguage.TemplateLevelsSnoc | src/main/java/edu/jhu/featurize/TemplateLanguage.java:423-429 | one more template adds exactly its structure's levels |
| TemplateLanguage.GetRequiredAnnotationTypes | src/main/java/edu/jhu/featurize/TemplateLanguage.java:421-431 | the nested loops compute the collection defined above |
| TemplateLanguage.AddElemLevels | src/main/java/edu/jhu/featurize/TemplateLanguage.java:424-428 | the inner loops add each element's levels, failing iff an element has no description |
| CoNLLX.FromUnderscore | src/edu/jhu/hltcoe/data/conll/CoNLLXToken.java:97-103 | the dummy value "_" becomes null (None) and nothing else does |
| CoNLLX.ToUnderscore | src/edu/jhu/hltcoe/data/conll/CoNLLXToken.java:109-115 | null becomes "_", and a present value other than "_" is never written as "_" |
| CoNLLX.ToFromUnderscore | src/edu/jhu/hltcoe/data/conll/CoNLLXToken.java:97-115 | reading a field and writing it back returns the field |
| CoNLLX.FromToUnderscore | src/edu/jhu/hltcoe/data/conll/CoNLLXToken.java:97-115 | writing an optional value and reading it back returns it iff it is not the string "_" |
| CoNLLX.Feats | src/edu/jhu/hltcoe/data/conll/CoNLLXToken.java:117-123 | `getFeats`: null stays null, otherwise the set of the pieces the split gives |
| CoNLLX.FeatsString | src/edu/jhu/hltcoe/data/conll/CoNLLXToken.java:125-133 | null and the empty set are written as "_" |
| CoNLLX.FeatsStringSplits | src/edu/jhu/hltcoe/data/conll/CoNLLXToken.java:125-133 | a non-empty feature set of bar-free features is written as something other than "_" (unless it is {"_"}) and splitting the result at the vertical bar gives back the set |
| CoNLLX.FromLine | src/edu/jhu/hltcoe/data/conll/CoNLLXToken.java:61-77 | a line parses only if it has at least ten whitespace-separated fields |
| CoNLLX.FromLineFields | src/edu/jhu/hltcoe/data/conll/CoNLLXToken.java:61-77 | parsing succeeds iff there are at least ten fields and fields 1 and 7 are integers; then every field lands in its own slot, with the optional ones read through the underscore convention |
| CoNLLX.ShortLineRejected | src/edu/jhu/hltcoe/data/conll/CoNLLXToken.java:66-67 | a line with fewer than ten fields raises ArrayIndexOutOfBoundsException or NumberFormatException |
| CoNLLX.Fields | src/edu/jhu/hltcoe/data/conll/CoNLLXToken.java:144-167 | the ten fields `write` puts out, in column order |
| CoNLLX.IntToStringWritable | src/edu/jhu/hltcoe/data/conll/CoNLLXToken.java:159 | `Integer.toString` never yields whitespace or the empty string |
| CoNLLX.FromLineOfFields | src/edu/jhu/hltcoe/data/conll/CoNLLXToken.java:61-167 | the ten written fields of a token, tab-joined, parse back to the token, its features re-read from the written feature field |
| CoNLLX.SplitAtEveryChar | src/edu/jhu/hltcoe/data/conll/CoNLLXToken.java:37 | splitting with the pattern "|", which matches the empty string everywhere, gives the single characters of the field |
| CoNLLX.SplitAtBars | src/edu/jhu/hltcoe/data/conll/CoNLLXToken.java:50 | the intended split of FEATS: non-empty, and no piece holds a bar |
| CoNLLX.FeatsAsWrittenHoldBar | src/edu/jhu/hltcoe/data/conll/CoNLLXToken.java:117-123 | as written, a FEATS field with a bar yields the one-character feature holding the bar; split at the bars it never does |
| CoNLLX.FeatsRoundTrip | src/edu/jhu/hltcoe/data/conll/CoNLLXToken.java:117-133 | with the split at bars, reading back a written non-empty set of bar-free features gives the set |
| SrlFactorGraphs.DefaultPrm | src/main/java/edu/jhu/srl/SrlFactorGraph.java:27-50 | the defaults: ALL_PAIRS roles, latent unknown-predicate roles, latent links, no tree factor |
| SrlFactorGraphs.RoleVarOf | src/main/java/edu/jhu/srl/SrlFactorGraph.java:222-231 | `createRoleVar` names the role "Role_p_c"; it is predicted with one state per role name when the predicate is known or unknown roles are not latent, otherwise latent with 0 states |
| SrlFactorGraphs.RoleAt | src/main/java/edu/jhu/srl/SrlFactorGraph.java:153-171 | a role variable exists for (i, j) exactly where the role structure creates one, and it is the one `createRoleVar` makes |
| SrlFactorGraphs.LinkAt | src/main/java/edu/jhu/srl/SrlFactorGraph.java:173-192 | a link variable exists for every parent -1..n-1 and child 0..n-1, except the diagonal when the tree factor supplies them |
| SrlFactorGraphs.RowFactorsMembers | src/main/java/edu/jhu/srl/SrlFactorGraph.java:196-216 | the factors of one row are those of its cells |
| SrlFactorGraphs.RowsMembers | src/main/java/edu/jhu/srl/SrlFactorGraph.java:195-217 | the factors added by the nested loops are those of the cells of the rows so far |
| SrlFactorGraphs.CellsHoldNoTree | src/main/java/edu/jhu/srl/SrlFactorGraph.java:195-217 | the per-cell loop never adds the global tree factor |
| SrlFactorGraphs.TreeFactorFirst | src/main/java/edu/jhu/srl/SrlFactorGraph.java:174-179 | the tree factor, when used, is the first factor and the only global one; otherwise there is none |
| SrlFactorGraphs.UnaryFactors | src/main/java/edu/jhu/srl/SrlFactorGraph.java:197-210 | a unary factor is added on a variable iff it is an existing role or link variable of some cell |
| SrlFactorGraphs.BinaryFactors | src/main/java/edu/jhu/srl/SrlFactorGraph.java:211-214 | a binary factor on (role, link) is added iff some cell has both that role and that link |
| SrlFactorGraphs.AllPairsRowLength | src/main/java/edu/jhu/srl/SrlFactorGraph.java:195-217 | with ALL_PAIRS and no tree factor, the wall row adds one factor per cell and every other row three |
| SrlFactorGraphs.AllPairsRowsLength | src/main/java/edu/jhu/srl/SrlFactorGraph.java:195-217 | the rows so far add n + 3 i n factors |
| SrlFactorGraphs.AllPairsFactorCount | src/main/java/edu/jhu/srl/SrlFactorGraph.java:195-217 | with ALL_PAIRS and no tree factor the graph has n + 3 n^2 factors |
| SrlFactorGraphs.FillRoleRow | src/main/java/edu/jhu/srl/SrlFactorGraph.java:158-167 | the inner loop fills row i with the role variables and leaves the other rows alone |
| SrlFactorGraphs.NewRoleVars | src/main/java/edu/jhu/srl/SrlFactorGraph.java:153-171 | the role matrix holds exactly the role variables defined above |
| SrlFactorGraphs.NewLinkVars | src/main/java/edu/jhu/srl/SrlFactorGraph.java:180-192 | without the tree factor the root array and child matrix hold exactly the link variables |
| SrlFactorGraphs.CellOf | src/main/java/edu/jhu/srl/SrlFactorGraph.java:197-215 | the factors one cell adds |
| SrlFactorGraphs.CollectFactors | src/main/java/edu/jhu/srl/SrlFactorGraph.java:195-217 | the nested loops add exactly the factors of all rows |
| SrlFactorGraphs.SrlFactorGraph.constructor | src/main/java/edu/jhu/srl/SrlFactorGraph.java:147-218 | the graph built for supported parameters |
| SrlFactorGraphs.SrlFactorGraph.GetLinkVar | src/main/java/edu/jhu/srl/SrlFactorGraph.java:247-257 | the link variable of (parent, child), null outside -1 <= parent < n, 0 <= child < n |
| SrlFactorGraphs.SrlFactorGraph.GetRoleVar | src/main/java/edu/jhu/srl/SrlFactorGraph.java:265-271 | the role variable of (i, j), null outside the matrix |
| SrlFactorGraphs.NewSrlFactorGraph | src/main/java/edu/jhu/srl/SrlFactorGraph.java:147-171 | construction fails iff the role structure is unsupported (IllegalArgumentException) or a known predicate lies outside the sentence (ArrayIndexOutOfBoundsException) |
| SrlFgExamples.GetKnownPreds | src/main/java/edu/jhu/srl/SrlFgExamplesBuilder.java:124-133 | the known predicates are exactly the predicate positions of the edges |
| SrlFgExamples.GetDataOfAnnoSentences | src/main/java/edu/jhu/srl/SrlFgExamplesBuilder.java:54-56 | `getData` on annotated sentences always throws a RuntimeException |
| SrlFgExamples.LastLabelNone | src/main/java/edu/jhu/srl/SrlFgExamplesBuilder.java:161-180 | a role no edge touches keeps the label "_" |
| SrlFgExamples.LastLabelLatest | src/main/java/edu/jhu/srl/SrlFgExamplesBuilder.java:171-180 | a role gets the label of the last edge on its (predicate, argument) pair |
| SrlFgExamples.ObservedRoleIs | src/main/java/edu/jhu/srl/SrlFgExamplesBuilder.java:164-165 | a role is assigned iff its variable exists and is not latent |
| SrlFgExamples.RoleStates | src/main/java/edu/jhu/srl/SrlFgExamplesBuilder.java:164-178 | an assigned role variable's states are the role names, so a label is a valid state iff it is a role name |
| SrlFgExamples.GoldStep | src/main/java/edu/jhu/srl/SrlFgExamplesBuilder.java:171-180 | one more edge sets exactly its own role variable to the edge's label |
| SrlFgExamples.LinkDoneStep | src/main/java/edu/jhu/srl/SrlFgExamplesBuilder.java:143-157 | one more cell of the link loop assigns exactly its non-latent off-diagonal link variable |
| SrlFgExamples.AssignLinkRow | src/main/java/edu/jhu/srl/SrlFgExamplesBuilder.java:143-157 | the inner loop assigns row i's links, with TRUE exactly for the gold parent |
| SrlFgExamples.AssignLinks | src/main/java/edu/jhu/srl/SrlFgExamplesBuilder.java:142-158 | the link loops assign exactly the non-latent link variables, each TRUE iff its parent is the child's gold parent |
| SrlFgExamples.RoleDoneStep | src/main/java/edu/jhu/srl/SrlFgExamplesBuilder.java:163-168 | one more cell of the blank-role loop assigns exactly its non-latent role variable |
| SrlFgExamples.RoleDoneRow | src/main/java/edu/jhu/srl/SrlFgExamplesBuilder.java:162-168 | finishing row i is starting row i + 1 |
| SrlFgExamples.AssignBlankRow | src/main/java/edu/jhu/srl/SrlFgExamplesBuilder.java:163-168 | row i's roles are set to "_"; this fails with IllegalArgumentException iff "_" is not a role name and the row has an assigned role |
| SrlFgExamples.AssignBlankRoles | src/main/java/edu/jhu/srl/SrlFgExamplesBuilder.java:162-169 | every non-latent role is set to "_", failing iff "_" is not a role name and some role is assigned |
| SrlFgExamples.AssignEdge | src/main/java/edu/jhu/srl/SrlFgExamplesBuilder.java:172-179 | one edge sets its role to its label, failing with IllegalArgumentException iff the label is not a role name |
| SrlFgExamples.EdgeGoldStep | src/main/java/edu/jhu/srl/SrlFgExamplesBuilder.java:172-179 | putting edge k's label on its assigned role turns the gold assignment for the first k edges into the one for k + 1, and assigns no new variable |
| SrlFgExamples.AssignEdgeRoles | src/main/java/edu/jhu/srl/SrlFgExamplesBuilder.java:171-180 | the edge loop fails iff some edge carries a bad label; otherwise every assigned variable holds its gold state |
| SrlFgExamples.GetTrainAssignment | src/main/java/edu/jhu/srl/SrlFgExamplesBuilder.java:135-183 | fails iff some put is refused; otherwise it assigns exactly the non-latent links and roles, each with its gold state |
| SrlFgExamples.LatentNotAssigned | src/main/java/edu/jhu/srl/SrlFgExamplesBuilder.java:146-177 | latent variables are never assigned |
| SrlFgExamples.GoldParentIsTrue | src/main/java/edu/jhu/srl/SrlFgExamplesBuilder.java:144-154 | with non-latent links, the link from a child's gold parent exists, is assigned and is TRUE |
| SrlFgExamples.OneTrueLinkPerChild | src/main/java/edu/jhu/srl/SrlFgExamplesBuilder.java:149-153 | at most one assigned link into a child is TRUE |
| SrlFgExamples.LastEdgeWins | src/main/java/edu/jhu/srl/SrlFgExamplesBuilder.java:171-180 | the last edge on a pair decides its role's state |
| SrlFgExamples.UntouchedRoleBlank | src/main/java/edu/jhu/srl/SrlFgExamplesBuilder.java:162-180 | an assigned role no edge touches has the state of "_" |
| SrlFgExamples.EdgeRolesPredicted | src/main/java/edu/jhu/srl/SrlFgExamplesBuilder.java:80-83 | with the known predicates taken from the edges, the role of every in-range edge exists, is predicted and is assigned |
| TopoOrders.CallsOf | src/main/java/edu/jhu/autodiff/TopoOrder.java:28-30 | one call per module, in the order given |
| TopoOrders.CallsOfAppend | src/main/java/edu/jhu/autodiff/TopoOrder.java:28-30 | the calls of two module lists concatenate |
| TopoOrders.ReverseIndex | src/main/java/edu/jhu/autodiff/TopoOrder.java:36-37 | `Collections.reverse` puts module i at position n-1-i |
| TopoOrders.ReverseReverse | src/main/java/edu/jhu/autodiff/TopoOrder.java:36-37 | reversing twice gives back the list |
| TopoOrders.BackwardMirrorsForward | src/main/java/edu/jhu/autodiff/TopoOrder.java:27-41 | the backward calls are the forward calls' modules in the opposite order |
| TopoOrders.Last | src/main/java/edu/jhu/autodiff/TopoOrder.java:69-71 | the last module, or an IndexOutOfBoundsException on an empty list |
| TopoOrders.TopoOrder.constructor | src/main/java/edu/jhu/autodiff/TopoOrder.java:16-20 | a new TopoOrder holds no modules |
| TopoOrders.TopoOrder.Add | src/main/java/edu/jhu/autodiff/TopoOrder.java:22-24 | the module is appended |
| TopoOrders.TopoOrder.GetLast | src/main/java/edu/jhu/autodiff/TopoOrder.java:69-71 | `getLast()`: the last module added, or IndexOutOfBoundsException exactly when none was added |
| TopoOrders.TopoOrder.DoForward | src/main/java/edu/jhu/autodiff/TopoOrder.java:27-32 | every module's forward is called once, in insertion order, and the last module's output is returned |
| TopoOrders.TopoOrder.DoBackward | src/main/java/edu/jhu/autodiff/TopoOrder.java:35-41 | every module's backward is called once, in reverse insertion order |
| TopoOrders.TopoOrder.DoZeroOutputAdj | src/main/java/edu/jhu/autodiff/TopoOrder.java:63-67 | every module's zeroOutputAdj is called once, in insertion order |
| TopoOrders.TopoOrder.GetInputs | src/main/java/edu/jhu/autodiff/TopoOrder.java:44-50 | the inputs are the modules in insertion order |
| TopoOrders.TopoOrder.GetOutput | src/main/java/edu/jhu/autodiff/TopoOrder.java:53-60 | `getOutput()` and `getOutputAdj()` come from the last module, failing iff there is none |
| TopoOrders.ForwardBackward | src/main/java/edu/jhu/autodiff/TopoOrder.java:9-41 | a forward then a backward pass calls each module twice: forward in order, then backward in reverse order |
| CorpusHandlers.AtName | src/main/java/edu/jhu/data/simple/CorpusHandler.java:348 | an annotation type's enum name is non-empty and has no comma |
| CorpusHandlers.AtValueOf | src/main/java/edu/jhu/data/simple/CorpusHandler.java:348 | `AT.valueOf` returns the type of that name, or raises IllegalArgumentException |
| CorpusHandlers.AtValueOfName | src/main/java/edu/jhu/data/simple/CorpusHandler.java:348 | `valueOf` of a type's name is that type |
| CorpusHandlers.ValuesOf | src/main/java/edu/jhu/data/simple/CorpusHandler.java:346-349 | the conversion succeeds iff every piece names a type, and then yields one type per piece, in order |
| CorpusHandlers.GetAts | src/main/java/edu/jhu/data/simple/CorpusHandler.java:341-351 | null gives the empty list; otherwise the comma-split pieces converted one by one |
| CorpusHandlers.Names | src/main/java/edu/jhu/data/simple/CorpusHandler.java:341-351 | one enum name per type, in order |
| CorpusHandlers.GetAtsOfJoin | src/main/java/edu/jhu/data/simple/CorpusHandler.java:341-351 | `getAts` of the comma-joined names of a non-empty type list gives the list back; the empty string fails, since its one piece is "" |
| CorpusHandlers.SplitJoinNames | src/main/java/edu/jhu/data/simple/CorpusHandler.java:345 | splitting comma-joined non-empty comma-free pieces at "," gives the pieces back |
| CorpusHandlers.ValuesOfNames | src/main/java/edu/jhu/data/simple/CorpusHandler.java:346-349 | converting each type's name gives back the types |
| CorpusHandlers.Ceil | src/main/java/edu/jhu/data/simple/CorpusHandler.java:179 | `Math.ceil`: the least integer not below x |
| CorpusHandlers.NumDev | src/main/java/edu/jhu/data/simple/CorpusHandler.java:179 | with 0 <= prop <= 1 the number of dev sentences lies between 0 and the list's size |
| CorpusHandlers.SplitByMask | src/main/java/edu/jhu/data/simple/CorpusHandler.java:182-188 | every item goes to exactly one of the two lists |
| CorpusHandlers.CountTrue | src/main/java/edu/jhu/data/simple/CorpusHandler.java:182-188 | the number of marked items is at most the number of items |
| CorpusHandlers.SplitByMaskUnsplit | src/main/java/edu/jhu/data/simple/CorpusHandler.java:182-188 | the sample has one item per marked position, and interleaving the two lists by the mask gives back the input in order |
| CorpusHandlers.SplitByMaskPermutes | src/main/java/edu/jhu/data/simple/CorpusHandler.java:182-188 | the two lists together are a permutation of the input |
| CorpusHandlers.ListOf.constructor | src/main/java/edu/jhu/data/simple/CorpusHandler.java:149-150 | a new, empty list |
| CorpusHandlers.Sample | src/main/java/edu/jhu/data/simple/CorpusHandler.java:175-189 | a proportion outside [0, 1] raises IllegalStateException and adds nothing; otherwise the marked items are appended to the sample and the rest to the remainder, in order, with an index exception when the sampler's mask is too short |
| CorpusHandlers.TrainGold | src/main/java/edu/jhu/data/simple/CorpusHandler.java:134-164 | `loadTrain` keeps as training gold the sentences the mask does not set aside when `hasTrain()` holds with a positive proportion, all of them otherwise; a proportion above 1 raises IllegalStateException, and otherwise an unparsable `removeAts` or `predAts` list raises IllegalArgumentException from `getAts` |
| CorpusHandlers.DevGold | src/main/java/edu/jhu/data/simple/CorpusHandler.java:225-272 | on a fresh handler `loadDev` caches the dev file's sentences when they are configured, followed by the training sentences set aside as dev; null when neither source exists; IllegalArgumentException from `getAts` when a source exists and an annotation list does not parse, IllegalStateException for a proportion above 1 |
| CorpusHandlers.DevGoldIffHasDev | src/main/java/edu/jhu/data/simple/CorpusHandler.java:193-272 | `hasDev()` holds exactly when loading the dev split leaves a non-null collection; it fails exactly for a proportion above 1 with training data (IllegalStateException) or for an unparsable annotation list when there is a dev source (IllegalArgumentException) |
| CorpusHandlers.TrainDevSplit | src/main/java/edu/jhu/data/simple/CorpusHandler.java:134-272 | with training data and a proportion in (0, 1], both loads succeed exactly when the annotation lists parse, and then each training sentence goes to exactly one of train and dev, and the dev split is the dev file's sentences followed by the sampled ones |
| CorpusHandlers.NoSplitKeepsTrain | src/main/java/edu/jhu/data/simple/CorpusHandler.java:134-272 | without training data or without a positive proportion, the training data is kept whole and the dev split is the dev file alone, or null; an unparsable annotation list makes the training load, and the dev load when there is a dev file, raise IllegalArgumentException |
| CorpusHandlers.CorpusHandler.constructor | src/main/java/edu/jhu/data/simple/CorpusHandler.java:91-98 | all caches start empty |
| CorpusHandlers.CorpusHandler.ClearTrainCache | src/main/java/edu/jhu/data/simple/CorpusHandler.java:120-123 | the train caches are emptied and nothing else changes |
| CorpusHandlers.CorpusHandler.ClearDevCache | src/main/java/edu/jhu/data/simple/CorpusHandler.java:211-214 | the dev caches are emptied and nothing else changes |
| CorpusHandlers.CorpusHandler.ClearTestCache | src/main/java/edu/jhu/data/simple/CorpusHandler.java:292-295 | the test caches are emptied and nothing else changes |
| ClampFactors.SemiringOf | src/main/java/edu/jhu/gm/model/ClampFactor.java:20 | the log semiring in the log domain, the real semiring otherwise |
| ClampFactors.OneIsNotZero | src/main/java/edu/jhu/gm/model/ClampFactor.java:20-22 | in both semirings one and zero differ and neither is NaN |
| ClampFactors.ClampTable | src/main/java/edu/jhu/gm/model/ClampFactor.java:21-22 | the table holds one at the clamped state and zero everywhere else |
| ClampFactors.ClampTableOneAt | src/main/java/edu/jhu/gm/model/ClampFactor.java:19-23 | after the update an entry is one iff it is the clamped state, and no entry is NaN |
| ClampFactors.ClampFactor.constructor | src/main/java/edu/jhu/gm/model/ClampFactor.java:13-17 | a factor over the one variable, with every entry NaN |
| ClampFactors.ClampFactor.UpdateFromModel | src/main/java/edu/jhu/gm/model/ClampFactor.java:19-23 | every entry is set to zero and the clamped state's entry to one; a state outside the table raises ArrayIndexOutOfBoundsException after the table is zeroed |
| MutableInts.MutableInt.constructor | src/main/java/edu/jhu/srl/MutableInt.java:12 | a new counter holds 1 |
| MutableInts.MutableInt.Increment | src/main/java/edu/jhu/srl/MutableInt.java:14-16 | the value grows by one, with 32-bit wrap-around |
| MutableInts.MutableInt.Get | src/main/java/edu/jhu/srl/MutableInt.java:18-20 | the value is 1 plus the number of increments, modulo 2^32; without overflow it is exactly that |
| MutableInts.MutableInt.ToString | src/main/java/edu/jhu/srl/MutableInt.java:23-25 | the decimal form of the value, which parses back to it |
| ErmaGraphs.KeepIf | src/main/java/edu/jhu/autodiff/erma/ErmaBp.java:253-274 | the filter keeps exactly the edges of the order whose leaf test matches, and never adds any |
| ErmaGraphs.KeepIfAppend | src/main/java/edu/jhu/autodiff/erma/ErmaBp.java:253-274 | filtering a concatenation filters each part, so the kept edges stay in schedule order |
| ErmaGraphs.FiltersPartition | src/main/java/edu/jhu/autodiff/erma/ErmaBp.java:253-274 | `filterConstantMsgs` and `filterNonConstantMsgs` split the order: each occurrence of an edge goes to the filter its leaf test picks and to no other |
| ErmaGraphs.DefaultPrm | src/main/java/edu/jhu/autodiff/erma/ErmaBp.java:52-66 | the parameter defaults: TREE_LIKE, 100 iterations, PARALLEL, log domain, no algebra, normalised messages, threshold 0, tape kept |
| ErmaGraphs.GetAlgebra | src/main/java/edu/jhu/autodiff/erma/ErmaBp.java:77-83 | the algebra set in the parameters, else the log semiring in the log domain and the real algebra otherwise |
| ErmaGraphs.SelectSchedule | src/main/java/edu/jhu/autodiff/erma/ErmaBp.java:144-159 | SEQUENTIAL picks the breadth-first or the random schedule and throws a RuntimeException for any other type; PARALLEL sends all edges |
| ErmaGraphs.AllEdgeIds | src/main/java/edu/jhu/autodiff/erma/ErmaBp.java:153-158 | the PARALLEL schedule's order: every edge id once, in id order |
| ErmaGraphs.NextOrder | src/main/java/edu/jhu/autodiff/erma/ErmaBp.java:235-250 | `updateOrder` reuses the previous order from iteration 1 on unless SEQUENTIAL or RANDOM; otherwise it filters the schedule to the constant messages at iteration -1 and to the others later |
| ErmaGraphs.UpdateOrderSplits | src/main/java/edu/jhu/autodiff/erma/ErmaBp.java:198 | iteration -1 sends only constant messages and every later iteration only non-constant ones |
| ErmaGraphs.NextOrderValid | src/main/java/edu/jhu/autodiff/erma/ErmaBp.java:235-250 | the chosen order only holds edges of the graph |
| ErmaNumerics.Filled | src/main/java/edu/jhu/autodiff/erma/ErmaBp.java:187 | a tensor with every entry set to one value |
| ErmaNumerics.ResidualOver | src/main/java/edu/jhu/autodiff/erma/ErmaBp.java:740-746 | the residual loop never yields NaN |
| ErmaNumerics.ResidualIsMax | src/main/java/edu/jhu/autodiff/erma/ErmaBp.java:740-746 | the residual is an upper bound of every entry's absolute log difference and is one of them, or negative infinity when no entry compares greater, as for an empty tensor or one whose differences are all NaN |
| ErmaNumerics.GetResidual | src/main/java/edu/jhu/autodiff/erma/ErmaBp.java:736-748 | the loop computes the residual; tensors of different sizes are refused by `checkEqualSize` |
| ErmaNumerics.UnnormalizeAdj | src/main/java/edu/jhu/autodiff/erma/ErmaBp.java:565-574 | a zero sum raises IllegalArgumentException; otherwise the adjoint keeps its size |
| ErmaNumerics.DotIsReal | src/main/java/edu/jhu/autodiff/erma/ErmaBp.java:570 | over finite tensors the real algebra's dot product is the real dot product |
| ErmaNumerics.ShiftedDot | src/main/java/edu/jhu/autodiff/erma/ErmaBp.java:570-572 | subtracting d from every entry and dividing by u shifts the dot product with w by d times w's sum and divides it by u |
| ErmaNumerics.UnnormalizedAdjOrthogonal | src/main/java/edu/jhu/autodiff/erma/ErmaBp.java:565-574 | for a normalised distribution the unnormalised adjoint is orthogonal to it: the dot product is 0 |
| ErmaForward.InitMsgs | src/main/java/edu/jhu/autodiff/erma/ErmaBp.java:184-188 | one fresh `Messages` per edge: message and pending message all ones over the edge's variable, with the initial residual |
| ErmaForward.AfterNormalize | src/main/java/edu/jhu/autodiff/erma/ErmaBp.java:360-370 | `normalizeAndAddToTape` changes no residual and no counter; with the tape kept it appends one entry holding the edge's current message, the normalising sum and the created flag, and without it the tape is unchanged |
| ErmaForward.Others | src/main/java/edu/jhu/autodiff/erma/ErmaBp.java:287-289 | the out-edges other than the edge itself |
| ErmaForward.AfterOthers | src/main/java/edu/jhu/autodiff/erma/ErmaBp.java:287-292 | normalising and recording the other out-edges changes no residual and no counter and only appends tape entries |
| ErmaForward.GlobalPending | src/main/java/edu/jhu/autodiff/erma/ErmaBp.java:350-358 | `createMessages` writes pending messages only: no residual changes |
| ErmaForward.AfterGlobalCreate | src/main/java/edu/jhu/autodiff/erma/ErmaBp.java:282-293 | a global factor's creation changes no residual and no counter and only appends tape entries |
| ErmaForward.AfterCreate | src/main/java/edu/jhu/autodiff/erma/ErmaBp.java:281-302 | `forwardCreateMessage` changes no residual and no counter and only appends tape entries |
| ErmaForward.SmartResidual | src/main/java/edu/jhu/autodiff/erma/ErmaBp.java:722-725 | a constant message has residual 0.0 and no residual is NaN |
| ErmaForward.AfterSend | src/main/java/edu/jhu/autodiff/erma/ErmaBp.java:693-719 | `forwardSendMessage` swaps the edge's message and pending message, touches no other edge and leaves the tape alone |
| ErmaForward.SendCounter | src/main/java/edu/jhu/autodiff/erma/ErmaBp.java:698-707 | the counter goes up by one exactly when the residual drops to the threshold or below, down by one exactly on the opposite crossing, and is unchanged otherwise |
| ErmaForward.AfterCreateAll | src/main/java/edu/jhu/autodiff/erma/ErmaBp.java:212-214 | the creation loop changes no residual and no counter and only appends tape entries |
| ErmaForward.AfterSendAll | src/main/java/edu/jhu/autodiff/erma/ErmaBp.java:217-219 | the sending loop leaves the tape alone |
| ErmaForward.AfterSequentialSweep | src/main/java/edu/jhu/autodiff/erma/ErmaBp.java:203-210 | a SEQUENTIAL iteration only appends tape entries |
| ErmaForward.SequentialStays | src/main/java/edu/jhu/autodiff/erma/ErmaBp.java:206-209 | once a send leaves every message converged, the rest of the SEQUENTIAL order changes nothing |
| ErmaForward.Run | src/main/java/edu/jhu/autodiff/erma/ErmaBp.java:199-228 | the loop of `forward()` keeps one `Messages` per edge |
| ErmaForward.RunSnoc | src/main/java/edu/jhu/autodiff/erma/ErmaBp.java:200-227 | an iteration that did not stop updates the order, runs one sweep and stops iff every message is then converged |
| ErmaForward.RunStays | src/main/java/edu/jhu/autodiff/erma/ErmaBp.java:223-227 | once the loop stops on convergence the state no longer changes |
| ErmaForward.RunStops | src/main/java/edu/jhu/autodiff/erma/ErmaBp.java:223-227 | a loop that stopped early ends with the state it stopped in |
| ErmaForward.InitState | src/main/java/edu/jhu/autodiff/erma/ErmaBp.java:183-188 | `forward()` starts with a new tape and fresh messages, and keeps the counter |
| ErmaForward.CountBelowUpdate | src/main/java/edu/jhu/autodiff/erma/ErmaBp.java:698-707 | changing one residual changes the number of converged residuals by that residual's change |
| ErmaForward.CountBelowExtremes | src/main/java/edu/jhu/autodiff/erma/ErmaBp.java:304-306 | the count of converged residuals is the number of messages iff all are at most the threshold, and 0 iff none is |
| ErmaForward.ForwardBalanced | src/main/java/edu/jhu/autodiff/erma/ErmaBp.java:111 | after `forward()` no residual is NaN and the counter is its old value, less the messages whose initial residual counted as converged, plus the messages now at most the threshold |
| ErmaForward.BalancedConverged | src/main/java/edu/jhu/autodiff/erma/ErmaBp.java:304-306 | with a balanced counter, `isConverged()` holds iff every residual is at most the threshold (base 0), or iff none is (base n) |
| ErmaForward.FirstForwardConverged | src/main/java/edu/jhu/autodiff/erma/ErmaBp.java:304-306 | on a new ErmaBp whose initial residual is above the threshold, `isConverged()` after `forward()` holds iff every message's residual is at most the threshold |
| ErmaForward.ForwardAfterConvergedPass | src/main/java/edu/jhu/autodiff/erma/ErmaBp.java:111 | `forward()` does not reset the counter: after a pass that converged, the next `forward()` reports convergence iff no message's residual is at most the threshold |
| ErmaForward.ParallelSweepTape | src/main/java/edu/jhu/autodiff/erma/ErmaBp.java:212-219 | a PARALLEL iteration records its creations, then one END_OF_EDGE_CREATION marker, and the sends record nothing |
| ErmaForward.ForwardTape | src/main/java/edu/jhu/autodiff/erma/ErmaBp.java:199-228 | the tape is a sequence of iterations, each of entries followed, for PARALLEL, by one marker; without a kept tape only markers remain |
| ErmaForward.OthersTape | src/main/java/edu/jhu/autodiff/erma/ErmaBp.java:287-292 | one tape entry per other out-edge, in order, each marked as not created |
| ErmaForward.GlobalCreateTape | src/main/java/edu/jhu/autodiff/erma/ErmaBp.java:282-293 | a global factor that creates its messages records the edge as created, then each other out-edge as not created, so the recorded edges are exactly its out-edges |
| ErmaBackward.CountIsMultiplicity | src/main/java/edu/jhu/autodiff/erma/ErmaBp.java:423-453 | the count of a replay step is its multiplicity among the steps |
| ErmaBackward.SequentialDownShape | src/main/java/edu/jhu/autodiff/erma/ErmaBp.java:425-429 | the SEQUENTIAL replay visits the entries from the top down, running send, normalize, create on each |
| ErmaBackward.SequentialDownCounts | src/main/java/edu/jhu/autodiff/erma/ErmaBp.java:425-429 | every entry in range gets exactly one step of each kind |
| ErmaBackward.SequentialStepsOrder | src/main/java/edu/jhu/autodiff/erma/ErmaBp.java:423-429 | for a tape of n entries the SEQUENTIAL replay is 3n steps, entry n-1 first, and each step occurs once |
| ErmaBackward.MarkerBelow | src/main/java/edu/jhu/autodiff/erma/ErmaBp.java:436-439 | the first END_OF_EDGE_CREATION marker at or below t, with only entries above it, or -1 when there is none |
| ErmaBackward.SendNormCounts | src/main/java/edu/jhu/autodiff/erma/ErmaBp.java:436-442 | the first inner loop sends and normalises each entry of the segment once and creates none |
| ErmaBackward.CreateCounts | src/main/java/edu/jhu/autodiff/erma/ErmaBp.java:446-452 | the second inner loop creates each entry of the segment once and does nothing else |
| ErmaBackward.ParallelSplit | src/main/java/edu/jhu/autodiff/erma/ErmaBp.java:431-453 | the PARALLEL replay is its top segment's two loops, then the same below the marker, which the second loop skips |
| ErmaBackward.ParallelCounts | src/main/java/edu/jhu/autodiff/erma/ErmaBp.java:430-453 | the PARALLEL replay runs each step exactly once on every entry and never on a marker |
| ErmaBackward.BackwardVisitsOnce | src/main/java/edu/jhu/autodiff/erma/ErmaBp.java:423-456 | `backward()` runs send, normalize and create exactly once on each tape entry, in both update orders, and never on a marker |
| ErmaBackward.EntryEdge | src/main/java/edu/jhu/autodiff/erma/ErmaBp.java:499-501 | the entry's edge id, or a NullPointerException when it is a marker |
| ErmaBackward.Zeroed | src/main/java/edu/jhu/autodiff/erma/ErmaBp.java:507-508 | `multiply(0)` keeps the tensor's size |
| ErmaBackward.SendBack | src/main/java/edu/jhu/autodiff/erma/ErmaBp.java:497-516 | `backwardSendMessage` restores the taped message, moves the current one to the pending slot, swaps in the adjoint at time t+1 and zeroes the one at time t, touching no other edge |
| ErmaBackward.NormalizeBack | src/main/java/edu/jhu/autodiff/erma/ErmaBp.java:518-527 | without normalisation nothing changes; otherwise only the edge's pending adjoint is unnormalised with the taped sum, failing iff that sum is the algebra zero |
| ErmaBackward.CreateBack | src/main/java/edu/jhu/autodiff/erma/ErmaBp.java:533-553 | `backwardCreateMessage` leaves the messages alone; for a global factor it runs the factor's adjoint computation only for an entry recorded as created, and otherwise the local one |
| ErmaBackward.ExecFailStays | src/main/java/edu/jhu/autodiff/erma/ErmaBp.java:401-457 | after an exception the rest of the replay changes nothing |
| ErmaBackward.SendUndone | src/main/java/edu/jhu/autodiff/erma/ErmaBp.java:693-713 | sending a message back undoes the forward send of it: the message before the send is restored and the sent one is pending again |
| ErmaBackward.ForwardThenBackward | src/main/java/edu/jhu/autodiff/erma/ErmaBp.java:181-457 | the replay of the tape `forward()` leaves visits each recorded message exactly once with each step |
| ErmaBps.ErmaBp.constructor | src/main/java/edu/jhu/autodiff/erma/ErmaBp.java:135-160 | the fields as the constructor sets them: the algebra of the parameters, the selected schedule, a zero counter and an empty tape |
| ErmaBps.ErmaBp.Create | src/main/java/edu/jhu/autodiff/erma/ErmaBp.java:131-160 | the construction fails with IllegalArgumentException iff the expected algebra differs from the parameters', else with RuntimeException iff the schedule type is unknown; otherwise the new object has the constructor's fields |
| ErmaBps.ErmaBp.IsConverged | src/main/java/edu/jhu/autodiff/erma/ErmaBp.java:304-306 | true iff every message is counted as converged |
| ErmaBps.ErmaBp.FilterConstantMsgs | src/main/java/edu/jhu/autodiff/erma/ErmaBp.java:253-262 | the loop keeps the non-constant messages of the order |
| ErmaBps.ErmaBp.FilterNonConstantMsgs | src/main/java/edu/jhu/autodiff/erma/ErmaBp.java:265-274 | the loop keeps the constant messages of the order |
| ErmaBps.ErmaBp.UpdateOrder | src/main/java/edu/jhu/autodiff/erma/ErmaBp.java:235-250 | the order for the iteration, as defined by `updateOrder` |
| ErmaBps.ErmaBp.NormalizeAndAddToTape | src/main/java/edu/jhu/autodiff/erma/ErmaBp.java:360-370 | the new state is the normalisation and tape step on the old one |
| ErmaBps.ErmaBp.ForwardGlobalFactorToVar | src/main/java/edu/jhu/autodiff/erma/ErmaBp.java:350-358 | the factor's answer; when it creates, the pending message of each of its out-edges is set, all computed from the messages before the call |
| ErmaBps.ErmaBp.ForwardCreateMessage | src/main/java/edu/jhu/autodiff/erma/ErmaBp.java:281-302 | the new state is the creation step on the old one |
| ErmaBps.ErmaBp.SmartResidual | src/main/java/edu/jhu/autodiff/erma/ErmaBp.java:722-748 | 0.0 for a constant message; otherwise the residual, with IllegalStateException for tensors of different sizes |
| ErmaBps.ErmaBp.ForwardSendMessage | src/main/java/edu/jhu/autodiff/erma/ErmaBp.java:693-719 | the new state is the send step on the old one |
| ErmaBps.ErmaBp.SequentialStep | src/main/java/edu/jhu/autodiff/erma/ErmaBp.java:203-205 | one more edge of a SEQUENTIAL iteration: create, then send |
| ErmaBps.ErmaBp.SequentialSweep | src/main/java/edu/jhu/autodiff/erma/ErmaBp.java:203-210 | the loop runs the SEQUENTIAL iteration, breaking on convergence |
| ErmaBps.ErmaBp.ParallelSweep | src/main/java/edu/jhu/autodiff/erma/ErmaBp.java:212-219 | the loops run the PARALLEL iteration: all creations, the marker, all sends |
| ErmaBps.ErmaBp.InitMessages | src/main/java/edu/jhu/autodiff/erma/ErmaBp.java:183-188 | new message arrays holding the initial messages, an empty tape, the counter kept |
| ErmaBps.ErmaBp.ForwardIteration | src/main/java/edu/jhu/autodiff/erma/ErmaBp.java:201-227 | one iteration of the loop advances the run by one iteration |
| ErmaBps.ErmaBp.ForwardLoop | src/main/java/edu/jhu/autodiff/erma/ErmaBp.java:200-228 | the loop ends in the state of the run at the last iteration, or at the one it stopped on convergence |
| ErmaBps.ErmaBp.Forward | src/main/java/edu/jhu/autodiff/erma/ErmaBp.java:181-228 | `forward()` leaves the messages, counter and tape of the whole pass |
| ErmaBps.ErmaBp.BackwardSendMessage | src/main/java/edu/jhu/autodiff/erma/ErmaBp.java:497-516 | the new messages and adjoints are those of the send step |
| ErmaBps.ErmaBp.BackwardNormalize | src/main/java/edu/jhu/autodiff/erma/ErmaBp.java:518-527 | the new adjoints are those of the normalize step |
| ErmaBps.ErmaBp.BackwardCreateMessage | src/main/java/edu/jhu/autodiff/erma/ErmaBp.java:533-553 | the new adjoints are those of the create step |
| ErmaBps.ErmaBp.ReplayStep | src/main/java/edu/jhu/autodiff/erma/ErmaBp.java:425-451 | one replay step extends the steps done, and an exception ends the replay with that state |
| ErmaBps.ErmaBp.BackwardSequential | src/main/java/edu/jhu/autodiff/erma/ErmaBp.java:423-429 | the SEQUENTIAL loop runs the SEQUENTIAL replay of the tape |
| ErmaBps.ErmaBp.SendNormSegment | src/main/java/edu/jhu/autodiff/erma/ErmaBp.java:436-442 | the first inner loop runs send and normalize down to the marker |
| ErmaBps.ErmaBp.CreateSegment | src/main/java/edu/jhu/autodiff/erma/ErmaBp.java:445-452 | the second inner loop runs create down to the marker and steps past it |
| ErmaBps.ErmaBp.ParallelBlock | src/main/java/edu/jhu/autodiff/erma/ErmaBp.java:435-452 | one pass of the outer loop runs the top segment's replay |
| ErmaBps.ErmaBp.BackwardParallel | src/main/java/edu/jhu/autodiff/erma/ErmaBp.java:430-453 | the PARALLEL loops run the PARALLEL replay of the tape |
| ErmaBps.ErmaBp.Backward | src/main/java/edu/jhu/autodiff/erma/ErmaBp.java:401-457 | `backward()` leaves the messages and adjoints of the replay from the initial adjoints, and changes neither the tape nor the counter |

## Left out

- ErmaBp beliefs, the Bethe free energy and the partition function (ErmaBp.java:798-884). They are floating-point logs and products over tensor and inference classes that are not part of this model.
- ErmaBp `potentialsAdj`, `initPotentialsAdj` and `backwardVarFacBeliefs`. These are adjoint numerics. The initial message adjoints that come from them are an input of `backward()`.
- ErmaBp `run()`, `getOutput`, `getOutputAdj`, `zeroOutputAdj`, `getInputs`, `getMessages`, `getMessagesAdj` and `getFactorGraph`. They are plain accessors or only compute beliefs.
- ErmaBp global factor heuristics. A `GlobalFactor`'s `createMessages` is a stateless function parameter. `reset` and any hidden state of the factor are not modelled.
- ErmaBp message aliasing. `Messages` and tensors are values, so sharing between them is not modelled.
- ErmaBp use before `forward()`. `msgs` is null until then and is modelled as empty arrays. Calling `backward()` before `forward()` is not modelled.
- ErmaBp unreachable branches. The "Unsupported update order" branches cannot be reached, because the update order has two values.
- ErmaBp counter overflow. `numConverged` is modelled as an unbounded integer: wrap-around would need several billion sends.
- ErmaBp tensor exceptions. `checkEqualSize` is taken to raise IllegalStateException. `checkSameAlgebra` and `Tensor.multiply(0)` are assumed to succeed. The tensor class is not part of this model.
- ErmaBps.ErmaBp: its methods require two facts about the numeric parameters:
  - `Consistent`: they return tensors of the edge's size;
  - `KeepsAdjSizes`: they keep the adjoints' sizes.

  The source takes both for granted.
- ProjDepTreeFactor inside-outside (`ProjDepTreeModule`, `HyperDepParser`, `InsideOutsideDepParse`). It is not part of this model, and neither are `getExpectedLogBelief`, `getLogOddsRatios` and `getLogProductOfAllFalseMessages`. `isDepTree` is a parameter.
- FactorGraph bookkeeping. `addFactor`, `addVar` and the graph's node and edge construction are not modelled. The SRL graph records its factors as a list.
- `SrlFactorGraphPrm.predictSense`, sense variables and `CorpusStatistics`. The graph constructor does not read them.
- SrlFgExamplesBuilder.java:83 calls a constructor of SrlFactorGraph whose signature does not match SrlFactorGraph.java:147. Each class is modelled on its own terms. The example-building loop that contains this call is left out.
- SortedIntIntVectors.SortedIntIntVector.Wrap requires `index != data`. Java lets both arrays be one object, and `zero()` would then clobber the indices.
- SortedIntIntVectors.SortedIntIntVector.Wrap requires ascending indices. The constructor hands the arrays to `SortedIntIntMap`, which is not part of this model; if it checks them like `SortedIntDoubleMap` does, unsorted indices raise IllegalStateException, and that path is not modelled.
- SortedIntIntVectors.SortedIntIntVector.Dense does not model the superclass check. Its indices are 0, 1, 2, ..., which always pass a sortedness check.
- SortedIntIntVectors.SortedIntIntVector.Equals assumes that the inherited entry iterator visits each entry once. `SortedIntIntMap`'s iterator is not part of this model. The `SortedIntDoubleMap` iterator at edu/jhu/hltcoe/util/vector/SortedIntDoubleMap.java:145-147 never advances, and a copy of it would make these loops run forever.
- SortedIntIntVectors.ReadsBack makes the same assumption about the iterator as Equals.
- SortedIntDoubleMaps.SortedIntDoubleMap.Wrap and SortedIntDoubleMaps.SortedIntDoubleMap.FromArrays require the data array to be at least as long as the index array. The source checks neither length, and a shorter data array raises ArrayIndexOutOfBoundsException at a later access; that failure is not modelled.
- VarConfigs.FromStates requires as many states as variables. The source only has a Java `assert` for this (VarConfig.java:30), which is off by default; a longer state array is then silently cut short and a shorter one raises ArrayIndexOutOfBoundsException.
- CoNLLX.FeatsString takes the iteration order of the feature set as a parameter, because Java hash order is not specified.
- CoNLLX.Feats takes the split function as a parameter. The Findings section models both the regex as written and a split at bars.
- CoNLLX.FromLineFields reads the ID and HEAD columns with a parser that accepts only the ASCII digits 0-9. Java's `Integer.parseInt` (CoNLLXToken.java:67 and :73) also accepts the other Unicode decimal digits, such as Arabic-Indic ones; a line that writes these columns in such digits parses in Java and is rejected by the model.
- CoNLLXToken `write()`. It is Writer I/O with `String.format` padding.
- CorpusHandler loading and writing of corpora. This is file I/O. Loaded sentence collections are opaque values.
- CorpusHandlers.Sample takes the random mask as a parameter. The source draws it from its random number generator.
- CorpusHandlers.TrainGold and CorpusHandlers.DevGold take the sentences read from the files and the sampler's mask as parameters, with the mask at least as long as the training data, as `sampleWithoutReplacementBooleans` returns it. They describe a handler that has loaded nothing yet.
- CorpusHandlers.HasTest is a plain definition. Nothing in the handler consults `hasTest()`: `loadTest` reads the test file whatever it returns, so there is no property to state beyond its definition.
- CorpusHandlers: `propTrainAsDev` and the proportion of `sample` are reals. A NaN proportion, which the source's `prop < 0 || prop > 1` test lets through, is not represented.
- SortedIntDoubleMaps stores reals. NaN and the two infinities are not represented, so the model says nothing about `add` or `get` on them.
- ProjDepTree.LinkName assumes that `LinkVar.getDefaultName(p, c)` (called at ProjDepTreeFactor.java:100) gives "Link_p_c", the format the root links use at ProjDepTreeFactor.java:107. LinkVar is not part of this model.
- ProjDepMsgs aliasing between message tensors. `setMsgs` and `addMsgs` write into the tensors the messages hold, and those tensors may be shared with other holders. The model treats messages as values, so an update seen through another reference is not modelled.
- ProjDepMsgs message values and the zero `getMsgs` starts from are reals. The log semiring's zero, negative infinity, is not representable, so `getMsgs` is modelled for algebras with a finite zero, and `addMsgs` adds reals.
- BinaryOp (SortedIntIntVectors.SortedIntIntVector.BinaryOp) uses the corrected merge `IntEntries.Merge`, which compares indices directly, not by the sign of the wrapping `e1 - e2` (see Findings). It agrees with the source whenever all indices are non-negative (`IntEntries.MergeAsWrittenAgrees`). The merge as written is `IntEntries.MergeAsWritten`.
- MergeArrays (SortedIntIntVectors.MergeArrays) computes the corrected merge, for the same reason as BinaryOp. It agrees with the source whenever all indices are non-negative.
- AddVector (SortedIntIntVectors.SortedIntIntVector.AddVector) goes through BinaryOp and so uses the corrected merge. It agrees with the source whenever all indices are non-negative.
- Subtract (SortedIntIntVectors.SortedIntIntVector.Subtract) goes through BinaryOp and so uses the corrected merge. It agrees with the source whenever all indices are non-negative.
- GetElementwiseSum (SortedIntIntVectors.SortedIntIntVector.GetElementwiseSum) goes through BinaryOp and so uses the corrected merge. It agrees with the source whenever all indices are non-negative.
- GetElementwiseDiff (SortedIntIntVectors.SortedIntIntVector.GetElementwiseDiff) goes through BinaryOp and so uses the corrected merge. It agrees with the source whenever all indices are non-negative.
- VarConfigs.Add, VarConfigs.AddAll, VarConfigs.VarConfig.Put, ProjDepTree.CreateVarSet and ProjDepTree.ProjDepTreeFactor.GetLogUnormalizedScoreOfIndex assume that `SmallSet.add`, which `VarSet` extends (VarSet.java:23), appends a variable that is absent and ignores one that is present. SmallSet is not part of this model. If it kept another order, such as a sorted one, every configuration index would change.
- TopoOrder `getOutputAdj` uses the same last-module rule as `getOutput`, which `TopoOrders.TopoOrder.GetOutput` models.
- TemplateLanguage `hasRequiredAnnotationType` throws in its default case. That case cannot be reached, because the switch covers every annotation type.
- ErmaForward.Run: its own contract only states that it keeps one `Messages` per edge. `RunSnoc`, `RunStays`, `RunStops` and the ForwardTape/ForwardBalanced lemmas state what the iterations do.

## Findings

| source | as written | input that shows it | evidently intended | confidence | as-written member | corrected member |
|---|---|---|---|---|---|---|
| src/main/java/edu/jhu/pacaya/gm/model/VarSet.java:95-97 | the overflow test only rejects a running product that wrapped to a non-positive `int` | two variables of 65537 states each: the product 4295098369 wraps to 131073, which is returned | raise the exception whenever the true product exceeds the `int` range | medium, not executed | VarSets.NumConfigsMissesOverflow | VarSets.ProductCheckedCorrect |
| src/main/java/edu/jhu/util/vector/SortedIntIntVector.java:192-199 | `binaryOp` compares indices by the sign of `e1 - e2`, which wraps | indices [-2] and [2147483647]: `e1 - e2` wraps to a positive value, so the result's indices are [2147483647, -2], which is not sorted | compare `e1` with `e2` directly, giving [-2, 2147483647] | medium, not executed | IntEntries.MergeAsWrittenUnsorted | IntEntries.MergeKeys |
| src/main/java/edu/jhu/featurize/TemplateLanguage.java:331-343 | the `FeatTemplate3` constructor never assigns the `includeDir` field | `new FeatTemplate3(pl, prop, true, lmod)` has structure [pl, prop, prop] | store `includeDir`, so the structure is [pl, prop, DIR, prop] | high, not executed | TemplateLanguage.FeatTemplate3AsWrittenDropsDir | TemplateLanguage.FeatTemplate3Dir |
| src/edu/jhu/hltcoe/data/conll/CoNLLXToken.java:37 | the feats pattern is the regex "vertical bar" alone. That is an alternation of two empty patterns, so `split` cuts the field between every pair of characters | FEATS `a` then a vertical bar then `b`: the pieces are the single characters, so the vertical bar itself becomes a feature | a pattern for a literal vertical bar, splitting `a`, bar, `b` into `a` and `b` | high, not executed | CoNLLX.FeatsAsWrittenHoldBar | CoNLLX.FeatsRoundTrip |
