# LOGIC-CAD-FOR-VLSI: a Dafny model of the netlist analysis and equivalence-checking core

This project models the core of a course repository on logic CAD over the HCM hierarchical-netlist library.

- **Top-cell statistics (`HCM/wet01/HW1ex1.cc`, module `Stats`).** Section a counts the top cell's nodes that are not global (`VDD`, `VSS`). Section b counts its instances. Sections c to e are fixed constants. Section f removes the leading `/` from hierarchical names.
- **Logic-depth ranking (`HCM/wet01/HW1ex2.cc`, modules `Rank`, `RankReport`, `Order`).** The netlist is flattened and instances become graph vertices. Each non-global node adds an edge from every driver to every sink; a top-level input port drives from the pseudo-source `__TOP_INPUT__`. A Kahn traversal then propagates longest-path ranks (`-1000000` means unreached). Finally the (rank, instance) pairs with a non-negative rank are collected and sorted.
- **SAT-based formal equivalence, as written by the authors (`HCM/wet02/HW2ex1.cc`, modules `Cnf`, `Tseytin`, `Fev`, `FevMatch`).**
  - Each flattened design is encoded into CNF with Tseytin clauses; `VDD` and `VSS` become unit clauses.
  - Primary inputs of the same name are tied with equivalence clauses.
  - Flip-flops of the same name have their Q pins tied and their D pins compared like outputs.
  - Each compared pair feeds an XOR miter, and one clause demands that at least one XOR is true.
  - The query is satisfiable exactly when some assignment meets both encodings and the ties while some compared pair differs.
- **The reference checker (`HCM/wet02/utilities/poli_reference.cc`, modules `Tseytin`, `FevRef`, `FevRefMain`).** It works the same way with a different design:
  - one shared variable pool whose keys carry `SPEC_` and `IMPL_` prefixes;
  - shared variables for primary inputs and for matched Q pins;
  - power nets recognised by the name suffix;
  - gate types dispatched on exact names such as `and2` to `and9`;
  - a port looked up first by exact name, then by a `%name` suffix.
- **The test driver (`HCM/wet02/run.py`, module `RunFev`).**
  - It reads the verdict from the checker's output.
  - It guesses the expected verdict from the first 50 lines of the two Verilog files, or else from a table.
  - It collects the result rows and the failures, and stops at the first checker run that exits non-zero.

Every std::map traversal of the source is modelled as iteration in an arbitrary order: a key is picked from the set not yet visited. Every property is proved for every order, hence also for the sorted order the C++ maps use. Satisfiability is modelled directly: an `Assignment` is a function from variables to booleans, and `Sat(a, clauses)` says that every clause has a true literal. The SAT solver's `newVar`/`addClause` interface is a class, `Cnf.Solver`, with a variable counter and an append-only clause sequence.

## Model

| member | source | states |
|---|---|---|
| Cnf.Solver.constructor | HCM/wet02/HW2ex1.cc:34 | a fresh solver has no variables and no clauses |
| Cnf.Solver.NewVar | HCM/wet02/HW2ex1.cc:175 | returns the next unused variable index and leaves the clauses alone |
| Cnf.Solver.AddClause | HCM/wet02/HW2ex1.cc:156-164 | appends exactly the given clause over allocated variables |
| Cnf.SatAppend | HCM/wet02/HW2ex1.cc:156-164 | a clause list appended to another is satisfied iff both parts are |
| Cnf.LitsClauseSat | HCM/wet02/utilities/poli_reference.cc:89-105 | the wide clause of an n-input gate is true iff its extra literal or some input literal is true |
| Cnf.PairsSat | HCM/wet02/utilities/poli_reference.cc:89-105 | the per-input two-literal clauses hold iff the shared literal is true or every input has the given polarity |
| Tseytin.BufferExact | HCM/wet02/utilities/poli_reference.cc:55-69 | the two buffer clauses hold iff Y equals A |
| Tseytin.InvExact | HCM/wet02/utilities/poli_reference.cc:71-85 | the two inverter clauses hold iff Y is the negation of A |
| Tseytin.XorExact | HCM/wet02/utilities/poli_reference.cc:167-196 | the four XOR clauses hold iff Y is A xor B |
| Tseytin.AndExact | HCM/wet02/utilities/poli_reference.cc:87-105 | n+1 clauses that hold iff Y is the conjunction of the inputs |
| Tseytin.NandExact | HCM/wet02/utilities/poli_reference.cc:107-125 | n+1 clauses that hold iff Y is the negated conjunction |
| Tseytin.OrExact | HCM/wet02/utilities/poli_reference.cc:127-145 | n+1 clauses that hold iff Y is the disjunction |
| Tseytin.NorExact | HCM/wet02/utilities/poli_reference.cc:147-165 | n+1 clauses that hold iff Y is the negated disjunction |
| Tseytin.AddLitsClause | HCM/wet02/utilities/poli_reference.cc:89-97 | appends the one wide clause of an n-input gate |
| Tseytin.AddPairs | HCM/wet02/utilities/poli_reference.cc:98-104 | appends one two-literal clause per input, in input order |
| Tseytin.EncodeBuffer | HCM/wet02/utilities/poli_reference.cc:57-69 | appends exactly the buffer clauses, with no new variables |
| Tseytin.EncodeInv | HCM/wet02/utilities/poli_reference.cc:73-85 | appends exactly the inverter clauses |
| Tseytin.EncodeAnd | HCM/wet02/utilities/poli_reference.cc:89-105 | appends exactly the AND clauses (meaning in AndExact) |
| Tseytin.EncodeNand | HCM/wet02/utilities/poli_reference.cc:109-125 | appends exactly the NAND clauses |
| Tseytin.EncodeOr | HCM/wet02/utilities/poli_reference.cc:129-145 | appends exactly the OR clauses |
| Tseytin.EncodeNor | HCM/wet02/utilities/poli_reference.cc:149-165 | appends exactly the NOR clauses |
| Tseytin.EncodeXor2 | HCM/wet02/utilities/poli_reference.cc:170-196 | appends exactly the four XOR clauses |
| Fev.GetVar | HCM/wet02/HW2ex1.cc:167-186 | an existing node keeps its variable and changes nothing; a new node gets the next variable, plus a positive unit clause if it is named exactly VDD or a negative one if exactly VSS; the new clauses hold iff the power constraints of the new nodes hold |
| Fev.PowerChain | HCM/wet02/HW2ex1.cc:167-186 | the power constraints of two successive pool extensions compose |
| Fev.EqExact | HCM/wet02/HW2ex1.cc:189-193 | the two equivalence clauses hold iff the variables are equal |
| Fev.AddEq | HCM/wet02/HW2ex1.cc:189-193 | after the call the clauses hold iff they held before and the two variables are equal |
| Fev.PrefixChars | HCM/wet02/HW2ex1.cc:196-199 | a prefix match means character-by-character agreement |
| Fev.DispatchPrefixes | HCM/wet02/HW2ex1.cc:232-331 | the name tests in the gate dispatch are tried in an order where an earlier match excludes later ones (xor before nand/nor, nand before and, nor before or) |
| Fev.GateOf | HCM/wet02/HW2ex1.cc:232-331 | which gate template a master name and arity select, in both directions: buffer and inv/not with exactly one input, any xor-prefixed name with two, and nand/nor/and/or prefixes with any arity; nothing is selected exactly when none of these tests passes |
| Fev.GateExact | HCM/wet02/HW2ex1.cc:232-331 | each template's clauses hold iff the output variable equals the gate function of the inputs |
| Fev.EncodedExact | HCM/wet02/HW2ex1.cc:232-331 | a rejected name or input count adds no clause; otherwise the added clauses hold iff the output equals the selected gate function of the inputs |
| Fev.AddHeadClause | HCM/wet02/HW2ex1.cc:270-330 | appends the clause with the output literal first and the inputs after, as the source builds it |
| Fev.EmitGate | HCM/wet02/HW2ex1.cc:232-331 | appends exactly the clauses of the selected template |
| Fev.EncodeGate | HCM/wet02/HW2ex1.cc:232-331 | appends exactly the clauses that the name and arity dispatch selects; an unknown name or a wrong arity appends nothing |
| Fev.PortNodes | HCM/wet02/HW2ex1.cc:344-361 | every port name maps to the node of one of its connections, and every connected port is present |
| Fev.PortVars | HCM/wet02/HW2ex1.cc:346-361 | every port's node gets a variable; inputs and outputs list the IN and OUT port variables in port order; INOUT ports join neither |
| Fev.RecordDff | HCM/wet02/HW2ex1.cc:363-379 | records the D and Q nodes of a flip-flop and adds no clause |
| Fev.EncodeInstGate | HCM/wet02/HW2ex1.cc:381-387 | the new clauses hold iff the instance's gate relation holds, with its first output as the gate output |
| Fev.EncodeInstance | HCM/wet02/HW2ex1.cc:337-388 | a flip-flop yields its D/Q record and only power constraints; any other instance's clauses hold iff its gate relation holds |
| Fev.EncodeCell | HCM/wet02/HW2ex1.cc:335-389 | for any instance order, the cell's clauses hold iff every instance's relation and every power constraint hold; the flip-flop table lists exactly the cell's flip-flops |
| FevMatch.CollectPorts | HCM/wet02/HW2ex1.cc:202-228 | IN nodes are inputs, OUT nodes are outputs, INOUT nodes are both and unported nodes are neither |
| FevMatch.PortClasses | HCM/wet02/HW2ex1.cc:222-226 | a node is both an input and an output iff it is an INOUT port |
| FevMatch.TieInputs | HCM/wet02/HW2ex1.cc:404-415 | exactly the input names common to both designs are tied, and the new clauses hold iff the tied variables are equal |
| FevMatch.CompareOutputs | HCM/wet02/HW2ex1.cc:418-430 | pairs exactly the output names common to both designs and adds only power constraints |
| FevMatch.MatchDff | HCM/wet02/HW2ex1.cc:441-454 | ties Q when both flip-flops have a Q node and compares D when both have a D node |
| FevMatch.MatchDffs | HCM/wet02/HW2ex1.cc:434-455 | ties exactly the Q pins and compares exactly the D pins of the flip-flops present in both designs |
| FevMatch.XorBlockExact | HCM/wet02/HW2ex1.cc:458-469 | the XOR block holds iff each fresh variable is the difference of its pair |
| FevMatch.MiterExact | HCM/wet02/HW2ex1.cc:458-475 | the miter holds iff the XOR definitions hold and, when there is any pair, some XOR variable is true |
| FevMatch.AddDifference | HCM/wet02/HW2ex1.cc:461-468 | allocates one fresh variable and appends its four XOR clauses |
| FevMatch.BuildMiter | HCM/wet02/HW2ex1.cc:457-475 | allocates one variable per compared pair and appends the XOR block and the mismatch clause |
| FevMatch.MiterSound | HCM/wet02/HW2ex1.cc:458-475 | a model of a non-empty miter makes some compared pair differ |
| FevMatch.MiterComplete | HCM/wet02/HW2ex1.cc:458-475 | an assignment can be extended on the fresh variables to satisfy the miter |
| FevMatch.MiterQuery | HCM/wet02/HW2ex1.cc:458-475 | the base clauses plus the miter are satisfiable iff the base clauses have a model with a differing pair (or there is no pair) |
| FevMatch.QueryMeaning | HCM/wet02/HW2ex1.cc:396-455 | after encoding and matching, the clauses hold iff both encodings and all ties hold |
| FevMatch.EncodeBoth | HCM/wet02/HW2ex1.cc:396-401 | the two designs get separate variable maps on one solver, and the clauses hold iff both encodings hold |
| FevMatch.MatchAll | HCM/wet02/HW2ex1.cc:403-455 | ties PIs and matched Q pins; compares POs then matched D pins |
| FevMatch.BuildCircuit | HCM/wet02/HW2ex1.cc:396-455 | the whole circuit before the miter means both designs, with common inputs and Q pins tied |
| FevMatch.BuildQuery | HCM/wet02/HW2ex1.cc:396-475 | the final CNF is satisfiable iff some input assignment meeting both designs and the ties makes a common output or a common D pin differ (or nothing is compared) |
| FevRef.PowerSuffixesExclusive | HCM/wet02/utilities/poli_reference.cc:32-43 | no name ends in both VDD and VSS, so a new node gets at most one unit clause |
| FevRef.GetOrCreateVar | HCM/wet02/utilities/poli_reference.cc:28-49 | an existing key keeps its variable; a new key gets the next variable and a unit clause when its name ends in VDD (positive) or VSS (negative) |
| FevRef.SuffixChain | HCM/wet02/utilities/poli_reference.cc:28-49 | suffix power constraints of successive pool extensions compose |
| FevRef.SizedArity | HCM/wet02/utilities/poli_reference.cc:267-601 | reads the arity 2 to 9 from a name that is its base alone or its base plus one digit 2 to 9 |
| FevRef.KindOf | HCM/wet02/utilities/poli_reference.cc:257-619 | the gate kind selected by exact name: buffer, inv/not, xor2, dff, and/nand/or/nor with sizes 2 to 9 (the bare name means 2), anything else unknown |
| FevRef.SizedKinds | HCM/wet02/utilities/poli_reference.cc:267-601 | every sized name selects that size, for all four families |
| FevRef.UnknownArities | HCM/wet02/utilities/poli_reference.cc:267-619 | and10 and and1 are not recognised |
| FevRef.UnknownNames | HCM/wet02/utilities/poli_reference.cc:257-619 | xor, AND2 and xnor are not recognised |
| FevRef.InputPorts | HCM/wet02/utilities/poli_reference.cc:267-601 | a sized gate reads its inputs from the ports A, B, C, … in order, one per input |
| FevRef.FnOf | HCM/wet02/utilities/poli_reference.cc:257-619 | every kind except dff and unknown has a gate function |
| FevRef.FirstFit | HCM/wet02/utilities/poli_reference.cc:227-239 | the first port in map order whose key fits, or none when no key fits |
| FevRef.PortNode | HCM/wet02/utilities/poli_reference.cc:218-253 | an exact key wins; otherwise the first key ending in "%" plus the port name; none means neither exists |
| FevRef.FindPortNode | HCM/wet02/utilities/poli_reference.cc:218-239 | the lookup loop computes PortNode |
| FevRef.FindFit | HCM/wet02/utilities/poli_reference.cc:227-239 | the suffix scan computes FirstFit |
| FevRef.FirstFitPrefix | HCM/wet02/utilities/poli_reference.cc:227-239 | a fitting port with no fitting port before it is the one found |
| FevRef.ResolvePorts | HCM/wet02/utilities/poli_reference.cc:218-253 | succeeds iff every named port resolves, and then yields their variables in order |
| FevRef.RefClausesExact | HCM/wet02/utilities/poli_reference.cc:257-619 | the reference clauses of any kind hold iff that gate's relation holds on its pin variables |
| FevRef.EmitGate | HCM/wet02/utilities/poli_reference.cc:257-619 | appends exactly the reference clauses of the kind |
| FevRef.EncodeGateRef | HCM/wet02/utilities/poli_reference.cc:205-620 | succeeds iff every needed port resolves; then the new clauses hold iff the instance's relation and the new power constraints hold |
| FevRef.EncodeCircuit | HCM/wet02/utilities/poli_reference.cc:625-634 | succeeds iff every instance resolves; then, for any instance order, the clauses hold iff every instance relation holds |
| FevRef.BoundaryNodes | HCM/wet02/utilities/poli_reference.cc:639-668 | lists, without repeats, exactly the nodes with a port of the given direction |
| FevRef.InOutIsNeither | HCM/wet02/utilities/poli_reference.cc:639-668 | an INOUT node is neither a primary input nor a primary output here |
| FevRef.LastPinIsLast | HCM/wet02/utilities/poli_reference.cc:681-694 | the pin node kept is that of the last matching port in map order |
| FevRef.PinNodes | HCM/wet02/utilities/poli_reference.cc:680-694 | the D and Q nodes are the last ports named D or ending in %D (Q likewise), else empty |
| FevRef.GetDffs | HCM/wet02/utilities/poli_reference.cc:673-700 | the table maps every dff instance, and only those, to its (D, Q) nodes |
| FevRefMain.PrefixKeys | HCM/wet02/utilities/poli_reference.cc:793-794 | SPEC_ and IMPL_ keys never collide, and each prefix is injective |
| FevRefMain.SharePIs | HCM/wet02/utilities/poli_reference.cc:816-829 | each spec primary input gets one fresh variable shared by its SPEC_ and IMPL_ keys; with distinct names, input i gets base+i |
| FevRefMain.ShareQ | HCM/wet02/utilities/poli_reference.cc:848-856 | when both Q nodes are non-empty, one fresh variable is bound to both prefixed keys |
| FevRefMain.ShareDffs | HCM/wet02/utilities/poli_reference.cc:832-864 | shares Q for every matched flip-flop with both Q nodes; lists exactly the D pairs of matched flip-flops with both D nodes |
| FevRefMain.ComparePair | HCM/wet02/utilities/poli_reference.cc:898-904 | looks up both keys and allocates one XOR variable that equals their difference |
| FevRefMain.Common | HCM/wet02/utilities/poli_reference.cc:885-895 | the spec outputs that also occur among the implementation outputs, in spec order, without repeats |
| FevRefMain.Contains | HCM/wet02/utilities/poli_reference.cc:888-894 | the search loop finds a name iff it is in the list |
| FevRefMain.ComparePOs | HCM/wet02/utilities/poli_reference.cc:885-910 | compares exactly the common outputs, in spec order |
| FevRefMain.CompareDs | HCM/wet02/utilities/poli_reference.cc:913-925 | compares every recorded D pair in order |
| FevRefMain.MiterClauseSat | HCM/wet02/utilities/poli_reference.cc:930-938 | the miter clause holds iff some XOR variable is true |
| FevRefMain.AddMiterClause | HCM/wet02/utilities/poli_reference.cc:930-938 | adds the miter clause only when there is some XOR output |
| FevRefMain.RefMiterSound | HCM/wet02/utilities/poli_reference.cc:880-938 | a model of the finished query makes some compared pair differ |
| FevRefMain.RefMiterComplete | HCM/wet02/utilities/poli_reference.cc:880-938 | a model of the circuits with a differing pair extends to a model of the query |
| FevRefMain.RefMiterQuery | HCM/wet02/utilities/poli_reference.cc:880-938 | the query is satisfiable iff the circuits have a model with a differing pair (or nothing is compared) |
| FevRefMain.CompareAll | HCM/wet02/utilities/poli_reference.cc:880-925 | the compared lists are the prefixed common outputs followed by the D pairs |
| FevRefMain.BuildMiterRef | HCM/wet02/utilities/poli_reference.cc:880-938 | the clauses after the miter are satisfiable iff the earlier clauses have a model with a differing pair |
| FevRefMain.EncodedMeaning | HCM/wet02/utilities/poli_reference.cc:867-877 | after both circuits are encoded, the clauses hold iff both circuit relations hold |
| FevRefMain.ShareInputs | HCM/wet02/utilities/poli_reference.cc:796-864 | the output lists are exactly the OUT nodes; inputs and matched Q pins are shared; D pairs are recorded |
| FevRefMain.ComparedListsHold | HCM/wet02/utilities/poli_reference.cc:880-925 | the compared key lists are exactly the common outputs and the D pins of matched flip-flops |
| FevRefMain.RefQuery | HCM/wet02/utilities/poli_reference.cc:796-938 | when every port resolves, the CNF is satisfiable iff some assignment meets both circuits with shared inputs and Q pins and makes a compared pair differ; a missing port is reported as failure |
| Rank.InitRank | HCM/wet01/HW1ex2.cc:101-108 | every instance starts at -1000000 and the pseudo-source at -1 |
| Rank.InitTables | HCM/wet01/HW1ex2.cc:101-108 | the rank table is InitRank and every in-degree starts at 0 |
| Rank.NodeEnds | HCM/wet01/HW1ex2.cc:120-146 | drivers are instances on OUT or INOUT pins plus the pseudo-source for an IN or INOUT top port; sinks are instances on IN or INOUT pins |
| Rank.Preds | HCM/wet01/HW1ex2.cc:156-160 | the predecessors of a vertex are exactly the sources of its incoming edges |
| Rank.PredsAdd | HCM/wet01/HW1ex2.cc:157-160 | a new edge raises only its sink's in-degree, by one |
| Rank.AddEdge | HCM/wet01/HW1ex2.cc:156-165 | inserting a new edge keeps the adjacency lists and in-degrees in step with the edge set |
| Rank.AddDriverEdges | HCM/wet01/HW1ex2.cc:150-166 | adds an edge from one driver to each sink other than itself |
| Rank.AddNodeEdges | HCM/wet01/HW1ex2.cc:148-167 | adds exactly the driver-to-sink edges of one node, self-loops excluded |
| Rank.BuildEdges | HCM/wet01/HW1ex2.cc:110-168 | for any node order, the edge set is exactly the driver-sink pairs linked by some non-global node, and the in-degree table counts them |
| Rank.SeedQueue | HCM/wet01/HW1ex2.cc:170-182 | queues, once each, exactly the vertices with in-degree 0, and gives an unranked one the rank -1000000 |
| Rank.DequeueStep | HCM/wet01/HW1ex2.cc:184-188 | popping the queue head keeps the traversal invariant (counts, queue contents, topological positions, ranks) |
| Rank.VisitStep | HCM/wet01/HW1ex2.cc:189-200 | relaxing one successor keeps the traversal invariant |
| Rank.Relax | HCM/wet01/HW1ex2.cc:191-199 | raises the successor's rank to the current rank plus one unless the current rank is unreached; decrements its in-degree and queues it on zero |
| Rank.VisitSuccessors | HCM/wet01/HW1ex2.cc:189-200 | relaxes every successor of the dequeued vertex |
| Rank.Dequeue | HCM/wet01/HW1ex2.cc:184-200 | one iteration of the traversal loop keeps its invariant |
| Rank.Propagate | HCM/wet01/HW1ex2.cc:184-201 | the final ranks satisfy the longest-path equations over the vertices that were dequeued, whatever the queue order; the loop runs once per dequeued vertex |
| Rank.PathDone | HCM/wet01/HW1ex2.cc:184-201 | a path ending at a dequeued vertex was dequeued all along, in order |
| Rank.CycleNeverDone | HCM/wet01/HW1ex2.cc:184-201 | no vertex on a cycle is ever dequeued |
| Rank.AcyclicAllDone | HCM/wet01/HW1ex2.cc:184-201 | on an acyclic graph every vertex is dequeued |
| Rank.RankLowerBound | HCM/wet01/HW1ex2.cc:189-199 | along a path of dequeued vertices, the rank grows by at least one per edge |
| Rank.RankPath | HCM/wet01/HW1ex2.cc:189-199 | every reached rank is witnessed by a path from the pseudo-source of exactly that length |
| Rank.LongestPath | HCM/wet01/HW1ex2.cc:184-201 | on an acyclic graph a vertex is unreached iff no path from the pseudo-source reaches it; otherwise its rank is the longest such path's edge count minus one |
| Rank.Shrink | HCM/wet01/HW1ex2.cc:184-187 | dequeuing a new vertex shrinks the set still to be dequeued (loop termination) |
| RankReport.CollectRanked | HCM/wet01/HW1ex2.cc:204-210 | collects exactly the pairs of a non-negative rank and an instance other than the pseudo-source, one per instance |
| RankReport.InsertNext | HCM/wet01/HW1ex2.cc:211-217 | one insertion step extends the sorted prefix and permutes the array |
| RankReport.SwapDown | HCM/wet01/HW1ex2.cc:211-217 | swaps two neighbours, a permutation |
| RankReport.SortEntries | HCM/wet01/HW1ex2.cc:211-217 | sorts by rank, then by name, and permutes the array |
| RankReport.SortReport | HCM/wet01/HW1ex2.cc:211-217 | the sorted report is strictly ordered and holds exactly the collected pairs |
| RankReport.DistinctOnce | HCM/wet01/HW1ex2.cc:204-210 | each collected pair occurs once |
| RankReport.NoNewNames | HCM/wet01/HW1ex2.cc:156-164 | on a well-formed netlist, edge building adds no in-degree key beyond the instances and the pseudo-source |
| RankReport.RankCell | HCM/wet01/HW1ex2.cc:101-201 | the rank table covers every instance and the pseudo-source and satisfies the longest-path equations over the edges of the netlist |
| RankReport.MaxRanks | HCM/wet01/HW1ex2.cc:101-218 | the printed list is strictly sorted and holds exactly the reached instances with their ranks |
| RankReport.InitRankSourceOnly | HCM/wet01/HW1ex2.cc:101-108 | initially only the pseudo-source is reached |
| RankReport.ReportDeterminate | HCM/wet01/HW1ex2.cc:211-217 | the sorted output is unique: it does not depend on the map traversal order |
| Order.StrLessIrreflexive | HCM/wet01/HW1ex2.cc:216 | lexicographic string order is irreflexive |
| Order.StrLessTransitive | HCM/wet01/HW1ex2.cc:216 | lexicographic string order is transitive |
| Order.StrLessTotal | HCM/wet01/HW1ex2.cc:216 | distinct strings are comparable one way and not both |
| Order.PairLess | HCM/wet01/HW1ex2.cc:212-217 | the comparator is strict: it never relates a pair to itself |
| Order.PairTotal | HCM/wet01/HW1ex2.cc:212-217 | the comparator is a strict total order on (rank, name) pairs |
| Order.PairTransitive | HCM/wet01/HW1ex2.cc:212-217 | the comparator is transitive |
| Order.AdjacentSortedIsSorted | HCM/wet01/HW1ex2.cc:211-217 | neighbour-wise order gives order for all pairs |
| Order.StrictlySortedUnique | HCM/wet01/HW1ex2.cc:211-217 | two strictly sorted lists with the same elements are equal |
| Stats.CountNonGlobal | HCM/wet01/HW1ex1.cc:88-98 | the loop counts the top-cell nodes that are not VDD or VSS |
| Stats.NonGlobalBounds | HCM/wet01/HW1ex1.cc:88-98 | the count is the node count minus the global nodes present, at most 2 below the node count, and equal to it iff no global node is present |
| Stats.TrimLead | HCM/wet01/HW1ex1.cc:163 | dropping the first character: put back, it restores the name |
| Stats.TrimSlash | HCM/wet01/HW1ex1.cc:159-165 | a name starting with '/' loses exactly that slash |
| Stats.TrimNames | HCM/wet01/HW1ex1.cc:159-165 | every listed name loses its first character and nothing else |
| Stats.TopStats | HCM/wet01/HW1ex1.cc:83-151 | a is the non-global node count, b the instance count, c and d are 0, e is 1 and the list f is empty |
| RunFev.Contains | HCM/wet02/run.py:26 | the substring test holds iff the pattern occurs at some position |
| RunFev.ContainsTrans | HCM/wet02/run.py:26-28 | a substring of a contained pattern is contained, so NOT SATISFIABLE! output also contains SATISFIABLE! |
| RunFev.ParseStatus | HCM/wet02/run.py:25-30 | the status is one of the three strings and is NOT SATISFIABLE! iff the output contains it |
| RunFev.ParseStatusMeaning | HCM/wet02/run.py:25-30 | ERROR iff the output lacks SATISFIABLE!; SATISFIABLE! iff it holds SATISFIABLE! but not NOT SATISFIABLE! |
| RunFev.Lower | HCM/wet02/run.py:40 | lower-casing keeps the length and maps each character through the ASCII lower-case map |
| RunFev.LowerIdempotent | HCM/wet02/run.py:40 | lower-casing twice equals lower-casing once |
| RunFev.SplitLines | HCM/wet02/run.py:37 | no line holds a line break, and there are no lines iff the text is empty |
| RunFev.JoinKeeps | HCM/wet02/run.py:40-41 | a phrase inside one line survives joining the lines |
| RunFev.FirstFiftyLines | HCM/wet02/run.py:37 | files agreeing on their first 50 lines yield the same text |
| RunFev.UnreadableSkipped | HCM/wet02/run.py:36-39 | an unreadable file contributes nothing |
| RunFev.TextsLowered | HCM/wet02/run.py:40 | the combined text has no upper-case ASCII letter |
| RunFev.Classify | HCM/wet02/run.py:43-51 | the guess is one of three verdicts, and unsat or not satisfiable anywhere forces NOT SATISFIABLE! |
| RunFev.ClassifyUnknown | HCM/wet02/run.py:43-51 | UNKNOWN iff the text holds none of sat, equivalent or different from |
| RunFev.NonEquivalentWins | HCM/wet02/run.py:43-46 | a non-equivalence phrase without unsat gives SATISFIABLE! although the text also contains equivalent |
| RunFev.ExtractExpected | HCM/wet02/run.py:33-51 | the guess classifies the joined, lower-cased first 50 lines of the readable files |
| RunFev.Expected | HCM/wet02/run.py:75-79 | a header guess other than UNKNOWN wins; UNKNOWN remains only if the table has no other verdict |
| RunFev.FailuresOf | HCM/wet02/run.py:82-83 | the failures are exactly the rows with a known expectation that differs from the status |
| RunFev.NoFailures | HCM/wet02/run.py:82-83 | there is no failure iff no row fails |
| RunFev.TestRow | HCM/wet02/run.py:74-81 | the row pairs the test name with the parsed status and the expected verdict |
| RunFev.RunFevTests | HCM/wet02/run.py:10-85 | a checker run with a nonzero return code ends the whole run with that code (the run helper, lines 10-22), so the run exits with the code of the first failing test if there is one; otherwise the test loop (lines 54-85) returns one row per test in order and exactly the failing rows |
| RunFev.NoFailedRun | HCM/wet02/run.py:20-21 | when every run exits 0 the driver never exits early |

## Left out

- Reading Verilog, flattening the hierarchy and building the HCM netlist are not part of this model. Each flattened cell is a value (`Netlist.Cell`): nodes with an optional top-level port direction and their instance-port connections, plus instances with a master name and ordered ports. Well-formedness is assumed: every instance that a node refers to is in the cell's instance table.
- The SAT solver's search, `simplify`, the DIMACS dump and the printed counterexample are left out. The model states when the final clause set is satisfiable, not what Minisat answers.
- Console and file output is left out: the printed statistics, the rank lines, verbose traces and the tables and summary of the test driver. Their contents are what the model computes.
- Python's Unicode `lower()` is modelled on ASCII letters only, and decoding with `errors="ignore"` is not modelled. A file is its text or unreadable (`None`).
- Running the checker as a subprocess is replaced by the test's captured output and exit code, which are parameters. `sys.exit` becomes the `Exited` outcome. `print_table`, the argument parsing and `main` of the driver are not part of this model.
- std::map and std::set order is not fixed. Every map traversal is an arbitrary order, and every property is proved for all orders.
- Rank.Propagate: a cycle is not reported as an error, because the code does not report one. Vertices on a cycle are never dequeued, but one of them can still receive a non-negative rank from a dequeued predecessor and then appear in the report. LongestPath states the longest-path meaning only for acyclic graphs.
- FevRef.EncodeGateRef: an unknown gate type only prints a warning in the code and adds no clauses, and the model does the same. A port that cannot be resolved ends the program in the code; the model returns `ok == false` and RefQuery promises nothing further then.
- Fev.RecordDff: a missing D or Q pin is an absent value (`Option`) rather than a null node pointer.
- FevRef.PortNode, FevRef.PinNodes and FevRef.GetDffs: every instance port is assumed to be connected to a node. The reference code skips a port without a node in the exact-key lookup, in the `%name` suffix scan and in the flip-flop pin scan; those skips are not modelled, so an exact key never falls through to the suffix scan because its node is missing.
- Integer widths are not modelled. Variable counts and ranks stay far below 2^31 for any netlist the tools can read.
- Sections c to e of HW1ex1.cc are fixed constants in the source, and section f's list is never filled. TopStats returns exactly those values.
