# Safety-game solver: verification

The repository solves safety games: player 0 wants to stay in a set of safe vertices for ever, player 1 wants to leave
it. Finite games are solved by an attractor computed with out-degree counters. Infinite games have words as vertices,
automata for the sets of vertices and a transducer for the edges; a winning set is learned as a DFA: a learner asks a
SAT solver for the smallest DFA that agrees with a sample, a teacher either certifies the conjecture as a winning set or
adds a counterexample to the sample, and the loop goes on. Underneath lies an automata library: determinization over
character intervals, four minimizers, products, inclusion, epsilon transitions, regular expressions, and builders for
string sets, substrings and numeric intervals.

The model follows the files of the program, one module for each component. An `Automaton` is a class whose transition map
and accept set the methods rewrite in place; a `Graph` is what it holds at one moment, and `Graph.Language` is the
independent meaning that every operation on automata is measured against. The prefix tree, the sample, the learner, the
teacher, the linked lists and partitions of the minimizers, the builder of string unions and the finite arena are
classes as well, with the loops of the program.

What carries the weight:

- **Learning loop** (`Formulas`, `Constraints`, `Encoder`, `Learners`, `Games`, `Teachers`, `Solving`): the constraints for
  n states have a model exactly when an n-state DFA agrees with the sample within the length bound that the code really
  has; a k-state DFA for a winning set makes k + 1 states enough; every counterexample refutes the conjecture and holds
  for every winning set, so no language is conjectured twice and the loop ends, with a winning set or, in exactly
  described games, with an index out of range. A set that passes the four checks gives player 0 a memoryless strategy
  that stays safe for ever.
- **Minimization** (`Equivalence`, `StateLists`, `Hopcroft`, `Minimization`, `Huffman`, `Brzozowski`, `Partitions`,
  `Splitting`, `Cords`, `Runs`, `Valmari`): each of the four algorithms keeps the language, and its result has no two
  reachable states with the same right language; for Valmari's it is said exactly when that holds, and what is told
  apart in any case.
- **Automata operations**: every construction accepts the language its documentation names, up to regular expressions,
  whose compilation agrees with their denotation, and numeric intervals with leading zeros.
- **Finite games** (`Attractors`): the marks cover the least fixpoint always, and are exactly the least fixpoint exactly
  when no counter of an opponent's vertex outside it runs out.

## Model

| member | source | states |
|---|---|---|
| Solving.Solve | code/infinite_case/src/Main.java:55-84 | Whenever some automaton recognizes a winning set the loop ends. Its run is fixed step by step from the empty sample on: each conjecture is the minimal automaton of a table of the least size that fits the sample, and each failure adds the counterexample of the first check that fails, at the first vertex at which it fails. The result is the last conjecture, a winning set, with at most k + 1 states if a k-state DFA recognizes one. All conjectures have different languages, and the counterexamples hold for that DFA. The loop can only end in an index out of range if every word is safe and player 0 owns a vertex without edges; if there is an initial vertex and images have no transitions to dead states, it does so exactly then. |
| CrashingGames.CrashingGame | code/infinite_case/src/learner/Learner.java:329-348 | A game with a regular winning set on which the loop ends in the index out of range. |
| Solving.TakeTurn | code/infinite_case/src/Main.java:61-77 | One turn: either the conjecture is a winning set, or the sample has one counterexample more, the first of the first check that fails, and fewer automata of the searched sizes agree with it; the conjecture is minimal and has the least size that fits, and the number of states never shrinks. |
| Learners.Learner.Conjecture | code/infinite_case/src/learner/Learner.java:119-167 | The size stops at the first n, from the remembered one on, for which an n-state DFA fits the sample, at most one above any agreeing DFA; the result is minimal and recognizes the language of a DFA that agrees within the bound; the call fails exactly when n·na is 1 for some existential counterexample. |
| Learners.ConstructSAT | code/infinite_case/src/learner/Learner.java:186-480 | The constraints added by all loops have exactly the models that `Constraints.Holding` describes group by group, and the call goes out of range exactly when n·na is 1 for some existential counterexample. |
| Encoding.ReadsFirstOfInterval | code/infinite_case/src/learner/Learner.java:294-299 | Of a consequence automaton with an interval the learner reads the first character and no other. |
| Constraints.SatisfiableIffAgreeing | code/infinite_case/src/learner/Learner.java:186-480 | Soundness and completeness: the constraints for n states have a model if and only if some complete n-state DFA accepts the positive and rejects the negative words and, for each counterexample whose antecedent it accepts, accepts all words (universal) or some word of length at most n·na − 2 (existential) of the consequence. |
| Bounds.OneMoreStateSuffices | code/infinite_case/src/learner/Learner.java:321-414 | Pigeonhole on the product of DFA and consequence: a k-state DFA that agrees with the sample, with witnesses of any length, padded with one state agrees within the bound for k + 1 states. |
| Bounds.MoreStatesSuffice | code/infinite_case/src/learner/Learner.java:131-155 | The same for every number of states above k: the search over n cannot miss. |
| Bounds.AgreeingIsNotEnough | code/infinite_case/src/learner/Learner.java:329-330 | A sample with which a one-state DFA agrees although the constraints for one state have no model: the bound is one too short. |
| Encoder.ConstrainZ | code/infinite_case/src/learner/Learner.java:343-414 | The nested loops for one existential counterexample add exactly the statement that z marks the pairs reached together by some word of each length below the bound, from the start pair on, forwards and backwards, and that an accepted antecedent has an accepted witness. |
| Encoder.ConstrainY | code/infinite_case/src/learner/Learner.java:286-317 | The loops for one universal counterexample add exactly the statement that y holds of the initial pair, is closed under joint steps, and that an accepted antecedent makes the DFA accept wherever the consequence accepts. |
| Encoder.ConstrainPrefixes | code/infinite_case/src/learner/Learner.java:441-480 | The breadth-first walk over the prefix tree adds exactly: no prefix ends in two states, x follows d along every child, and decided words accept or reject where they end. |
| Learners.TranslateModel | code/infinite_case/src/learner/Learner.java:497-534 | The automaton read off a model is deterministic and minimal and accepts exactly the words that the DFA described by the model accepts. |
| Learners.FullAlphabetFails | code/infinite_case/src/transducer/MinimizationOperations.java:232-243 | With all 65536 characters in the alphabet a one-state DFA does not meet what `minimizeHopcroft` asks of deterministic automata. |
| PrefixTrees.PrefixTree.AddWord | code/infinite_case/src/learner/PrefixTree.java:61-83 | Numbers are unique and stay as they are, exactly the prefixes of the word become known, and the acceptance of exactly that word is set, only if it was open: the first value wins. |
| Teachers.Teacher.CheckIfWinningSet | code/infinite_case/src/teacher/Teacher.java:38-76 | True if and only if the conjecture passes the four conditions, with the sample untouched; otherwise the sample gains a counterexample, unless an equal one is there: for the first condition that fails, in their order, and for the shortest vertex at which it fails, the lexicographically first of those. |
| Teachers.AnExample | code/infinite_case/src/teacher/Teacher.java:41-45 | No word exactly when the language is empty; otherwise the shortest word, the lexicographically first of those. |
| Games.PassesIsWinning | code/infinite_case/src/teacher/Teacher.java:64-72 | The fourth check only looks at edges into vertices of the game; if edges stay inside V0 ∪ V1, what passes is exactly what wins. |
| Games.FailureRefutes | code/infinite_case/src/teacher/Teacher.java:38-76 | The counterexample of a failed check is disobeyed by the conjecture it was made for. |
| Games.FailureHoldsForWinning | code/infinite_case/src/teacher/Teacher.java:38-76 | The same counterexample is obeyed by every winning set. |
| Games.WinningIsSafe | code/infinite_case/src/teacher/Teacher.java:25-37 | Along every play of any length that follows the strategy of a winning set, all vertices are safe and the strategy has an edge to follow; this is what infinite plays need at every position. |
| Games.WinningIffStrategy | code/infinite_case/src/teacher/Teacher.java:25-37 | With disjoint V0 and V1 and edges inside them, a winning set exists if and only if player 0 has a memoryless strategy that keeps every play from an initial vertex safe. |
| Samples.ContainsExample | code/infinite_case/src/learner/Sample.java:92-100 | A counterexample is in the list when the word is the same and the automata have the same language. |
| Hopcroft.Refine | code/infinite_case/src/transducer/MinimizationOperations.java:250-372 | The refinement over arrays, linked lists and the pending queue ends, and its blocks are exactly the classes of states that no word tells apart. |
| Hopcroft.MoveListed | code/infinite_case/src/transducer/MinimizationOperations.java:343-349 | A state's node moves from the active list of one block to that of another; every other list and entry stays as it was. |
| StateLists.StateListNode.Remove | code/infinite_case/src/transducer/MinimizationOperations.java:555-575 | Unlinking in the doubly linked list takes out exactly this node and keeps the order of the rest. |
| Minimization.MinimizeHopcroft | code/infinite_case/src/transducer/MinimizationOperations.java:232-394 | The language is kept, and no two reachable states of the result have the same right language. |
| Minimization.Minimize | code/infinite_case/src/transducer/MinimizationOperations.java:232-260 | Without the representation invariant: the language is kept in any case, and the call fails exactly on an automaton marked as deterministic whose reachable part is only its initial state looping on all characters by several transitions. |
| Huffman.Distinguish | code/infinite_case/src/transducer/MinimizationOperations.java:163-193 | After the loops over all pairs, with marks propagated by triggers, a pair is marked if and only if some word tells the two states apart. |
| Huffman.MarkTable.MarkPair | code/infinite_case/src/transducer/MinimizationOperations.java:131-147 | The recursion ends, marks the pair and all that waits for a newly marked pair, and nothing that no word tells apart. |
| Huffman.MinimizeHuffman | code/infinite_case/src/transducer/MinimizationOperations.java:156-217 | The language is kept, and no two reachable states of the result have the same right language. |
| Brzozowski.Reverse | code/infinite_case/src/transducer/SpecialOperations.java:54-75 | In place, every transition is turned around, runs end where they started, and the new initial state copies the former accepting states, which are returned. |
| Brzozowski.MinimizeBrzozowski | code/infinite_case/src/transducer/MinimizationOperations.java:222-227 | Reversing and determinizing twice keeps the language, and no two reachable states of the result have the same right language. |
| Partitions.Partition.Mark | code/infinite_case/src/transducer/MinimizationOperations.java:609-620 | Exactly this element becomes marked, no set changes, and elements and locations stay inverse permutations with contiguous sets. |
| Partitions.Partition.Split | code/infinite_case/src/transducer/MinimizationOperations.java:621-642 | Every set with marked and unmarked elements becomes two, one of each kind, all others stay; the part that is not larger, the marked one of two equal parts, gets the new number; afterwards nothing is marked. |
| Splitting.SplitTransitions | code/infinite_case/src/transducer/MinimizationOperations.java:491-521 | The points are exactly the ends of the transitions; afterwards any two intervals are equal or disjoint, each a point or a gap between neighbouring points, and every state has the successors it had on every character. |
| Splitting.MakeAdjacent | code/infinite_case/src/transducer/MinimizationOperations.java:480-490 | Counting sort in place: the stretch of the array for each key lists exactly the numbers with that key, each once. |
| Valmari.Refine | code/infinite_case/src/transducer/MinimizationOperations.java:444-461 | The alternating splitting of blocks and cords ends in a stable partition that respects acceptance, and every other such partition is finer than it. |
| Valmari.MinimizeValmari | code/infinite_case/src/transducer/MinimizationOperations.java:399-478 | The language is kept, the result is deterministic, and any two different reachable states of it are told apart by a word that only one accepts or only one can read. A deterministic automaton can be read on the same words afterwards, and the result is minimal if and only if its reachable states with the same right language have transitions on the same characters; in particular whenever there are no transitions to dead states. One that had to be determinized becomes minimal. |
| Valmari.DeadEndsSeparate | code/infinite_case/src/transducer/MinimizationOperations.java:399-478 | An automaton that fails that condition, so its result is not minimal. |
| Automata.Automaton.Reduce | code/infinite_case/src/transducer/Automaton.java:370-402 | Each reachable state keeps its successors on every character, and no two intervals to the same destination overlap or touch. |
| Automata.Automaton.GetLiveStates | code/infinite_case/src/transducer/Automaton.java:430-453 | The backward search finds exactly the states from which an accepting one is reached. |
| Automata.Automaton.RemoveDeadTransitions | code/infinite_case/src/transducer/Automaton.java:459-473 | The remaining states keep their right languages and have exactly the live successors they had on every character; afterwards the automaton is reduced and no transition leads to a dead state. |
| Automata.Automaton.Totalize | code/infinite_case/src/transducer/Automaton.java:340-361 | Every state has a transition on every character, the gaps lead to a fresh sink, and every right language is kept. |
| Automata.Automaton.GetStartPoints | code/infinite_case/src/transducer/Automaton.java:408-424 | Ascending points, exactly the least character, the first characters of the transitions of reachable states, and those that follow their last; between two of them no reachable state changes its successors. |
| BasicOperations.Determinize | code/infinite_case/src/transducer/BasicOperations.java:448-500 | The language is kept, and the result is deterministic, reduced and without transitions to dead states; an automaton marked as deterministic stays as it is. |
| Products.Complement | code/infinite_case/src/transducer/BasicOperations.java:246-255 | Accepts exactly the words that the automaton does not accept. |
| Products.Intersection | code/infinite_case/src/transducer/BasicOperations.java:285-334 | Accepts exactly the common words; deterministic when both are, and without transitions to dead states. |
| Products.Minus | code/infinite_case/src/transducer/BasicOperations.java:264-275 | Accepts exactly the words of the first that the second does not accept. |
| Unions.Union | code/infinite_case/src/transducer/BasicOperations.java:399-412 | Accepts exactly the words of either. |
| Repetitions.UnionAll | code/infinite_case/src/transducer/BasicOperations.java:419-438 | Accepts exactly the words of some automaton in the list. |
| Inclusion.SubsetOf | code/infinite_case/src/transducer/BasicOperations.java:346-392 | A positive answer always means inclusion. The answer is positive exactly when the language is included and the determinized second automaton has a run on every word on which the first has one; so it decides inclusion when the first has no transitions to dead states. The second automaton, unless it is the first, is determinized in place and keeps its language. |
| Products.IsEmpty | code/infinite_case/src/transducer/BasicOperations.java:578-582 | True exactly when nothing is accepted and nothing but the empty word can be read; so a positive answer is always right, a negative one whenever no transition leads to a dead state. |
| Concatenations.IsEmptyString | code/infinite_case/src/transducer/BasicOperations.java:568-573 | True exactly when the empty word is accepted and nothing else can be read. |
| Examples.GetShortestExample | code/infinite_case/src/transducer/BasicOperations.java:603-642 | None exactly when nothing is accepted; otherwise an accepted word that is, of all accepted words, the shortest and, of those, the one that is smaller at the first place where they differ. |
| Examples.AtMostIsLexicographic | code/infinite_case/src/transducer/BasicOperations.java:622-634 | The comparison of the search, on words of the same length: equal, or smaller at the first place where they differ. |
| Epsilons.AddEpsilons | code/infinite_case/src/transducer/BasicOperations.java:509-563 | The pairs are closed transitively by the worklist and then worked in, in place and in any order; afterwards every state has exactly the acceptance and the transitions of the states that the epsilon transitions lead to, and accepts exactly what it accepts by runs that may also take them. |
| Concatenations.ConcatenateAll | code/infinite_case/src/transducer/BasicOperations.java:88-142 | Accepts exactly the words that are split into one word of each automaton of the list, which may hold the same automaton more than once. |
| Repetitions.Optional | code/infinite_case/src/transducer/BasicOperations.java:150-160 | Accepts the empty word and the words of the automaton. |
| Repetitions.Repeat | code/infinite_case/src/transducer/BasicOperations.java:169-181 | Accepts exactly the concatenations of any number of words of the automaton. |
| Repetitions.RepeatMin | code/infinite_case/src/transducer/BasicOperations.java:189-197 | The same for at least min words. |
| Repetitions.RepeatMinMax | code/infinite_case/src/transducer/BasicOperations.java:207-238 | The chained clones accept exactly the concatenations of min to max words, nothing when min is greater than max. |
| RegExps.ToAutomaton | code/infinite_case/src/transducer/RegExp.java:323-411 | The automaton accepts exactly the denotation of the expression, with or without minimizing on the way, in which case it is minimal above the leaves; the call fails exactly when an interval in the expression is ill formed. |
| RegExps.FindLeaves | code/infinite_case/src/transducer/RegExp.java:413-422 | The automata of nested unions or concatenations, in order, stand for the flattened operands. |
| RegExps.MakeConcatenationDenotes | code/infinite_case/src/transducer/RegExp.java:567-601 | Fusing neighbouring characters and strings, also across nested concatenations, keeps the denotation. |
| RegExps.InARowIsFused | code/infinite_case/src/transducer/RegExp.java:567-601 | Operands put together from right to left, as the parser does: no character or string is left beside another, and all other operands are there in their order. |
| RegExps.PutBehind | code/infinite_case/src/transducer/RegExp.java:573-578 | A character or string put behind a concatenation is fused with the one at its end. |
| BasicAutomata.MakeString | code/infinite_case/src/transducer/BasicAutomata.java:261-266 | Accepts exactly this string. |
| StringUnions.MakeStringUnion | code/infinite_case/src/transducer/BasicAutomata.java:274-284 | For strings in any order, with repetitions: a deterministic automaton that accepts exactly the given strings, in which no two reachable states have the same right language. |
| StringUnions.Build | code/infinite_case/src/transducer/StringUnionOperations.java:314-321 | From sorted words the incremental builder makes a minimal deterministic automaton for exactly those words. |
| StringUnions.InOrderIsLexicographic | code/infinite_case/src/transducer/StringUnionOperations.java:24-37 | The order of the builder is the lexicographic one: a beginning of a word comes before it, otherwise the first difference decides. |
| StringUnions.Builder.Add | code/infinite_case/src/transducer/StringUnionOperations.java:251-271 | The builder's invariant survives and the word is added: registered states are pairwise different, with registered children, and the open path spells the last word. |
| StringUnions.Builder.ReplaceOrRegister | code/infinite_case/src/transducer/StringUnionOperations.java:340-352 | The open states below a state are registered or replaced from the end of the path upwards; the words accepted from the root and all states above stay as they were. |
| StringUnions.Builder.AddSuffix | code/infinite_case/src/transducer/StringUnionOperations.java:358-364 | Exactly the current word joins the accepted ones. |
| Matchers.MakeStringMatcher | code/infinite_case/src/transducer/BasicAutomata.java:444-490 | Accepts exactly the words that contain the string; in state i the longest beginning of the string that ends the word read has length i. |
| Intervals.AtLeast | code/infinite_case/src/transducer/BasicAutomata.java:152-165 | The planted tree accepts exactly the numerals of the right length that are at least the bound, and the collected states are those reached by zeros only. |
| Intervals.AtMost | code/infinite_case/src/transducer/BasicAutomata.java:171-182 | The planted tree accepts exactly the numerals of the right length that are at most the bound. |
| Intervals.Between | code/infinite_case/src/transducer/BasicAutomata.java:189-209 | The planted tree accepts exactly the numerals of the right length between the bounds, and the collected states are those reached by zeros only. |
| NumericIntervals.MakeInterval | code/infinite_case/src/transducer/BasicAutomata.java:221-256 | Accepts exactly the strings of the characters '0' to '9' that spell a number from min to max, of the given number of digits or, when that is not positive, with any number of leading zeros; fails exactly when min is above max or no string of that many digits spells max. |
| NumericIntervals.OneDigit | code/infinite_case/src/transducer/BasicAutomata.java:221-256 | The interval from d to d with one digit is the character of that digit and nothing else. |
| Numerals.ValueIsNumber | code/infinite_case/src/transducer/BasicAutomata.java:139-209 | The values that the trees compare are the numbers that the digit characters spell, each further digit counting what is before it ten times. |
| Numerals.DecimalSpells | code/infinite_case/src/transducer/BasicAutomata.java:223-224 | The decimal string of a number spells it, without a zero in front. |
| Images.Image | code/infinite_case/src/transducer/TransducerOperations.java:188-245 | For the chain automaton of one word, when no cycle of edges reads nothing and no edge has '-' on both sides, the recursion ends and the automaton it builds accepts exactly the words that some run of the transducer writes while it reads that word, '-' standing for no character on either side. |
| Images.OneEdge | code/infinite_case/src/transducer/TransducerOperations.java:213-232 | A transducer with one edge relates what is on its two sides, '-' standing for the empty word, and nothing else. |
| Attractors.FiniteArena.Attractor | code/finite_case/finite_arena.py:16-72 | The unbounded run ends and marks all of the attractor; the marks are exactly the attractor if and only if the counter of no opponent's vertex outside it runs out, as on inputs without repeated targets and without two edges into the layer that first attracts a vertex. A run of i rounds marks all of the i-th layer, and exactly it on such inputs. |
| Attractors.EscapeIsMarked | code/finite_case/finite_arena.py:44-68 | An arena on which every complete run marks a vertex from which the opponent can escape. |

## Findings

Where the code does less, or something else, than its comments say, the model follows the code.

- **Length bound** (code/infinite_case/src/learner/Learner.java:329-330). The z variables have lengths 0 to n·na − 2, not
  n·na − 1. A sample with which an n-state DFA agrees may have no model for n states: `Bounds.AgreeingIsNotEnough` is the
  input, `Constraints.SatisfiableIffAgreeing` the exact condition, `Bounds.MoreStatesSuffice` what it costs: one state.
- **Index out of range** (code/infinite_case/src/learner/Learner.java:330, 348). For n·na = 1 the array has no entry for
  the empty word. The learning loop runs into this on the game of `CrashingGames.CrashingGame` although a one-state
  automaton recognizes a winning set. `Solving.Solve` says on which games: every word is safe and player 0 owns a vertex
  without edges.
- **Attractor** (code/finite_case/finite_arena.py:44-68). Marks are set after a round, so a vertex can enter the frontier
  twice and the counters of its predecessors are decreased twice. `Attractors.EscapeIsMarked` is the input, `CountsRight`
  in the contract of `Attractors.FiniteArena.Attractor` the exact condition; it speaks of edge counts, not of the run.
- **Valmari** (code/infinite_case/src/transducer/MinimizationOperations.java:399-478). Missing transitions separate states
  with the same right language: `Valmari.DeadEndsSeparate` is the input, `Valmari.MinimizeValmari` has the exact condition.
- **Hopcroft on one state** (code/infinite_case/src/transducer/MinimizationOperations.java:232-260). Only an initial state
  with the single loop over all characters is recognized as the automaton with one state. A deterministic automaton
  that is not reduced can miss this test and then fail: `Minimization.Minimize` says exactly when. With an alphabet of
  all characters the learner's first conjecture does (`Learners.FullAlphabetFails`).
- **subsetOf** (code/infinite_case/src/transducer/BasicOperations.java:346-392). It can deny an inclusion when the first
  automaton has transitions to dead states; `Inclusion.SubsetOf` says exactly when.
- **Universal closure** (code/infinite_case/src/teacher/Teacher.java:64-72). Edges of player 1 that leave V0 ∪ V1 are not
  looked at. `Games.PassesIsWinning` needs edges inside V0 ∪ V1 for that reason, and so do the theorems about play.
- **Acceptance in the prefix tree** (code/infinite_case/src/learner/PrefixTree.java:61-83). The first value of a word wins
  silently. The hypothesis that positive and negative words are disjoint is met in every run of `Solving.Solve`, because
  all counterexamples hold for the same winning set.
- **Labels read** (code/infinite_case/src/learner/Learner.java:297). The learner reads only the lower end of an interval
  (`Encoding.ReadsFirstOfInterval`), so
  consequence automata need single-character labels; this is part of what is asked of images.

## Left out

- Singleton representation: an automaton that is one string is kept as its expanded chain (`BasicAutomata.MakeString`).
- Hash codes, string forms, dot output, serialization, verbose and debug pauses, and the global flags for mutation and
  for minimizing always, both taken as off; in debug mode the learner does not minimize its conjecture.
- Automata minimized as a side effect of comparing counterexamples: the sample keeps graphs, compared by language.
- State objects and their identity: a state is a number, and all transition sets of an automaton sit in one map; two
  automata that share states are not modelled.
- Prefix-tree nodes and builder states are records in a sequence, found by number, instead of linked objects.
- Boolean tables (the marks of Huffman's algorithm, the flags of Hopcroft's) are the sets of their true entries; the list
  `split` of Hopcroft's algorithm, which is filled and cleared but never read, does not appear.
- Formulas are values and the SAT solver is an exact oracle: it answers with a model whenever there is one.
- Images.Image: the loop branch of `imageRec` and automata other than a chain are not modelled, because on cycles the code
  merges or does not end; the minimization at the end of `image` is left to the caller. The teacher and the learning
  loop take the images as exact parameters instead, with single-character labels for images of single words, and the
  word of a counterexample as itself rather than as the regular expression that it spells.
- Solving.Solve: an alphabet of all 65536 characters is not included, because the first conjecture over it cannot be
  minimized (`Learners.FullAlphabetFails`).
- Learners.Learner.Conjecture: the numbers that `setStateNumbers` gives to the states of a consequence automaton are the
  states themselves.
- Products.Intersection: the overlap sweep of a pair of rows is run before the targets are numbered, in two loops instead
  of one.
- Splitting.SplitTransitions: all rows are rewritten from the old ones instead of one state after the other.
- StringUnions.Build: the identity map from builder states to automaton states is the numbering itself.
- NumericIntervals.MakeInterval: negative bounds, whose decimal strings begin with a sign, are not modelled.
- The parser and printer of regular expressions, named automata and automaton providers.
- Transducer input by `run`, `deepcopy` and `invert`, and the concrete games.
- Other special operations (trim, compress, substitution, homomorphism, projection), finite-string enumeration, the
  shortest rejected example, and the tables of named data types.
