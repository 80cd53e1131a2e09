# fwdelta, verified

A model of fwdelta in Dafny: the compiler from firewall rulesets to exact packet sets, the
comparison of two revisions, and the enumerator that turns a packet set back into rectangles a
person can read. Every stage of the program is a fast or compact form of something plain. The
project states the plain thing apart from the code and proves that the stage agrees with it, for
every ruleset, every packet and every work limit.

The plain things are few.

- A set of field values is a predicate on naturals (`Intervals.Contains`).
- A rule matches a packet when every field value and both interfaces are admitted (`Rules.Matches`).
- A chain gives a packet the action of its first matching rule, and its policy otherwise
  (`Rules.FirstMatch`, `Rules.Permitted`).
- A packet set is a predicate on valuations of the 120 header variables (`Diagram.Has`).
- The text of a file means the token list of `Lexer.TokensOf` and then the grammar of `Grammar`.

| modules | part of the program |
|---|---|
| Intervals, Cidr, Render | canonical interval sets, greedy prefix decomposition, "block except holes" |
| Diagram, Header, Rules | decision diagrams, variable layouts and comparators, matches, chains, interfaces |
| Accept, Explanation, Deletion | forward and backward analysis, shadowing, redundancy, attribution |
| Pairing, Diff, Symbols, Tables | deltas, rule pairing, structural findings, independence from the symbol table |
| Masks, Regions, Counting, Cubes, Enumerate, Flows | rectangles, merging, exact accounting, flow counts |
| Witness, Assertions | counterexamples and the three-valued assertion checker |
| Lexer, Grammar, Parser | the frontend as classes, proved equal to its grammar |
| Accepted, Splicing, Skipping, Origins | what acceptance implies: soundness, what is passed over, where names come from |
| Pieces, Names, Emitter, Printed, Reread, RoundTrip, RoundTripExact | the emitter, and printing followed by parsing |
| Stored, Survival | the bytes of a printed chain, and exactly which chains come back from their file |
| Calendar, Json | dates from day counts, the JSON writer and a reader that undoes it |
| Arith, Sorting, Cardinality, Wrappers | shared mathematics and option and result types |

The decision diagram library is modelled by its meaning: reduced ordered decision trees
(`Diagram.Bdd`), for which equality is proved to be equality of sets and whose root-to-one paths
are proved disjoint. Loops and objects of the source are methods and classes here. Where a method
is proved against a specification function, the lemmas listed below are about that function.

## Where the code does less than its prose

Each of these is proved, with the exact condition where there is one.

- The emitter says it gives up on what it cannot express (crates/kerneldiff/src/emit.rs:56-57).
  It does so for ports only. Excluded interfaces, output interfaces and a choice of several
  protocols are left out of the text (`RoundTripExact.ExcludedInterfaceIsLost`). A chain, whatever
  it and its interfaces are called, comes back from its file exactly when it is printable and its
  interface names are in ASCII (`Survival.SurvivesExactly`). Printable means: named by a word, with
  policy accept or drop, and made of rules that can match and constrain nothing the emitter leaves
  out, refuses or spells in a way the frontend refuses (`Printed.PrintableChain`).
- The comparison of the harness leaves the chain's own name out. Where that name is a word, the name
  comes back with the body (`Survival.BodySurvivesExactly`). Where it is not, the comparison can pass
  although the name is lost: a blank in front of it is enough (`Survival.BlankNameIsLost`).
- `civil_from_days` subtracts 146096 from a negative day count and then divides rounding down, so
  the era adjustment is made twice. It is right exactly from 0000-03-01 on and, before that, on
  the last day of each 400-year era (`Calendar.CivilExactly`). Time stamps of the other days are a
  day late (`Calendar.StampExact`).
- A vacuous isolation assertion can be false (`Assertions.VacuousNeedNotHold`); it holds exactly
  when it describes no packet or the policy already decides that way
  (`Assertions.VacuousHoldsExactly`).
- A rule can be understood in part (against docs/NFTABLES-SUBSET.md:8-11). `counter` takes the
  tokens after `packets` and `bytes` whatever they are, the end of the line included; an option of
  `log` takes the word after it; `reject with` takes everything up to the end of the statement.
  Every accepted rule is proved to mean exactly what its listed forms mean
  (`Skipping.RuleIsKept`). It is nothing but listed forms exactly under a condition on its tokens
  (`Skipping.AcceptedRuleIsListedExactly`). Otherwise something is passed over, and among that is a
  match, a verdict, a statement end, a named set or a word refused by name exactly when one stands
  in such a place (`Skipping.AcceptedRuleLosesNothingExactly`). Inputs are
  `Skipping.CounterSwallowsVerdict`, `Skipping.CounterSwallowsLineEnd`,
  `Skipping.LogSwallowsVerdict` and `Skipping.RejectSwallowsMatch`; `Skipping.TcpResetIsListed` is
  one where nothing is lost.
- Address translation is to reject the whole file (docs/NFTABLES-SUBSET.md:102-104). It does not
  where it is passed over: `counter packets dnat accept` is an accepted rule
  (`Skipping.CounterSwallowsNat`).
- `device`, which the table of supported structure does not list, is skipped in the declaration of a
  chain together with whatever token follows it (`Skipping.DeviceTakesAnything`), exactly when it
  stands in front of the priority (`Skipping.DeviceExactly`); the chain means the same without
  (`Skipping.ChainLosesDevice`).
- A rule of an output chain can constrain the input interface, which no packet has there. It does
  so exactly when a clause `meta iifname` is reached (`Accepted.OutputIifExactly`); a bare
  `iifname` is refused wherever it is reached (`Accepted.BareIifnameRefused`).
- A second interface match replaces the first. The rule still means both exactly when the first
  admits every interface of the second, or nothing matches anyway
  (`Accepted.SecondIifnameExactly`); `Accepted.SecondIifnameForgets` is an input where it does not.
  A second value match narrows the first (`Accepted.SecondConstraintNarrows`).
- The count of packets that could not be rendered stops at the first field beyond the cap. It is
  never too large, and it is right exactly when every refused path fixes all the fields after that
  one (`Enumerate.SkippedExactly`, with the input `Cubes.CountsOneField`).
- Redundant rules can be impossible to delete together (`Deletion.RedundantTogether`). Any rules can
  go together exactly when each passes the test for one rule over the rules kept behind it
  (`Deletion.GoTogetherExactly`); shadowed ones always can (`Deletion.ShadowedTogether`).
- A range whose lower end is past the domain of its field is compiled from the low bits of that end:
  the packets are those of the range exactly when it is empty or its lower end fits the field
  (`Header.RangeExactly`).
- A name with a quote, a backslash or a character outside ASCII does not come back from between
  its quotes as itself (`Names.NameComesBackExactly`).
- The explanation of a shadowed rule prefers one covering rule, which can lie beyond a shorter
  prefix of rules that cover together (`Explanation.CanLeaveShortestPrefix`,
  `Explanation.InShortestPrefixExactly`).
- The port gate of the frontend adds nothing to the grammar: once all clauses of a rule are read
  it can only fire on an unsatisfiable match (`Accepted.PortGateIsImplied`).

## Model

| member | source | states |
|---|---|---|
| Intervals.Normalise | crates/ir/src/intervals.rs:55-77 | The set built from any list of ranges is canonical and holds exactly the values of the ranges, each endpoint clamped to the domain; ranges that run backwards count for nothing. |
| Intervals.NormaliseSound | crates/ir/src/intervals.rs:55-77 | Sorting and coalescing yields sorted, disjoint, never adjacent ranges with the members of the input. |
| Intervals.FromRanges | crates/ir/src/intervals.rs:55-77 | The retain, sort and merge loops compute the canonical set of the given ranges. |
| Intervals.CanonicalUnique | crates/ir/src/intervals.rs:11-15 | Two canonical range lists with the same members are the same list. |
| Intervals.SetEquality | crates/ir/src/intervals.rs:11-15 | Structural equality of interval sets of one width is equality of their members. |
| Intervals.FullAndEmpty | crates/ir/src/intervals.rs:99-106 | The emptiness and fullness tests on the structure decide emptiness and fullness of the set, and no member exceeds the domain. |
| Intervals.WordPrefix | crates/ir/src/intervals.rs:80-86 | A prefix of any machine word is one range, which holds exactly the words that share the leading bits, and is a canonical set of the field if and only if the word is in its domain. |
| Intervals.BlockSound | crates/ir/src/intervals.rs:80-86 | For every machine word, the shift and mask arithmetic on the host bits bounds exactly the words with the same leading bits; the bounds are in the field's domain if and only if the word is. |
| Intervals.Span | crates/ir/src/intervals.rs:46-53 | A range clamps both endpoints to the domain and is empty when it runs backwards. |
| Intervals.Union | crates/ir/src/intervals.rs:118-122 | Canonical union: a member is a member of either. |
| Intervals.Meet | crates/ir/src/intervals.rs:125-141 | The two-cursor intersection is canonical without a merge pass and holds exactly the common members. |
| Intervals.Intersect | crates/ir/src/intervals.rs:125-141 | The loop with two cursors computes the canonical intersection. |
| Intervals.Complement | crates/ir/src/intervals.rs:144-159 | The gaps form a canonical set of exactly the in-domain values outside. |
| Intervals.ComplementOf | crates/ir/src/intervals.rs:144-159 | The cursor loop, which stops early at the domain maximum, computes the canonical complement. |
| Intervals.Difference | crates/ir/src/intervals.rs:161-163 | A member is in the first set and not in the second. |
| Intervals.ComplementRoundTrip | crates/ir/src/intervals.rs:144-159 | Complementing twice gives back the same structure; a set and its complement fill the domain and do not meet. |
| Intervals.HullIsSmallest | crates/ir/src/intervals.rs:166-171 | The hull ends are members and every member lies between them. |
| Cidr.RangeToPrefixes | crates/ir/src/intervals.rs:197-215 | The loop over alignment and remaining span emits the greedy block list of the range. |
| Cidr.GreedyPartition | crates/ir/src/intervals.rs:193-215 | The blocks are aligned, pairwise disjoint, and cover exactly the range. |
| Cidr.GreedyMinimal | crates/ir/src/intervals.rs:193-215 | No set of aligned blocks covering exactly the range, overlapping or not, has fewer blocks. |
| Cidr.GreedyShort | crates/ir/src/intervals.rs:193-215 | At most two blocks per bit of width. |
| Cidr.SetToPrefixesExact | crates/ir/src/intervals.rs:218-220 | The blocks of a whole interval set are aligned and cover exactly its members. |
| Cidr.SetToPrefixesMinimal | crates/ir/src/intervals.rs:218-220 | No exact cover of a whole interval set by aligned blocks has fewer blocks. |
| Diagram.SameSet | crates/engine/src/accept.rs:205-216 | Diagrams with the same points are the same diagram, which is what comparing them relies on. |
| Diagram.FalseIsEmpty | crates/engine/src/accept.rs:219-231 | The false and true tests on diagrams decide emptiness and fullness. |
| Diagram.PathsExact | crates/engine/src/enumerate.rs:141-160 | Each valuation agrees with exactly one root-to-one path if it satisfies the diagram and with none otherwise. |
| Diagram.Restrict | crates/engine/src/enumerate.rs:361-367 | Fixing a variable yields the points that are in the set once that variable is fixed. |
| Rules.FromNames | crates/ir/src/interface.rs:46-57 | A table holds exactly the given names, sorted, each once; it is refused, never truncated, if and only if there are more than 256 different names. |
| Rules.Resolve | crates/ir/src/interface.rs:143-165 | An interface match becomes exactly the values its names stand for, or all other values of the 256 when negated. |
| Rules.ConstrainNarrows | crates/ir/src/rule.rs:112-127 | Constraining intersects one dimension and leaves every other one and both interfaces alone. |
| Rules.RelaxUndoesConstrain | crates/ir/src/rule.rs:134-146 | Relaxing a packet field forgets a constraint whatever it was, and constraining after it sets the field outright. |
| Rules.RelaxForgetsInterface | crates/ir/src/rule.rs:134-146 | Relaxing an interface forgets its match, and a match is its relaxation together with the interface match. |
| Rules.ConstrainedMatches | crates/ir/src/rule.rs:112-127 | A packet matches a constrained match if and only if it matches the match and the constraint. |
| Rules.FirstMatchIs | crates/engine/src/accept.rs:238-242 | The deciding rule is the one that matches while none before it does. |
| Rules.FirstMatchSound | crates/engine/src/accept.rs:238-242 | Among the rules up to the deciding position only the deciding rule matches. |
| Header.SequenceOf | crates/engine/src/header.rs:33-64 | Both variable orders list 120 bits, each at the place given by its formula. |
| Header.PlaceInverse | crates/engine/src/header.rs:33-64 | In both orders every bit of every field has a variable, and that variable is for that bit. |
| Header.SlotInverse | crates/engine/src/header.rs:33-64 | In both orders every variable stands for a bit within its field's width, and for no other variable's bit. |
| Header.NewLayout | crates/engine/src/header.rs:86-99 | The lookup table inverts the sequence for every field and bit. |
| Header.PacketOfPoint | crates/engine/src/header.rs:33-64 | Encoding a packet into header bits and reading it back gives the packet. |
| Header.PointOfPacket | crates/engine/src/header.rs:33-64 | Reading the packet of a valuation and encoding it gives the valuation: the encoding is a bijection. |
| Header.PrefixSet | crates/engine/src/header.rs:151-161 | For any word: the conjunction of leading-bit literals holds exactly the packets whose field shares the leading bits of the part of the word that the field has room for. |
| Header.GreaterEqual | crates/engine/src/header.rs:163-178 | For any word: the comparator built from the least significant bit holds exactly the packets whose field is at least the low bits of the bound, which are the bound itself when it fits. |
| Header.LessEqual | crates/engine/src/header.rs:180-193 | The same from above. |
| Header.RangeOf | crates/engine/src/header.rs:195-207 | For any two words: nothing for a backward range, and otherwise the packets whose field lies between the low bits of the lower end and the upper end. |
| Header.RangeExactly | crates/engine/src/header.rs:195-207 | Those are the packets of the range if and only if it is empty or its lower end fits the field. |
| Header.SetOf | crates/engine/src/header.rs:209-220 | A field set compiles to exactly the packets whose field value is a member. |
| Header.MatchSet | crates/engine/src/header.rs:225-242 | A match compiles to exactly the packets it matches, whichever the variable order. |
| Accept.Analyse | crates/engine/src/accept.rs:243-298 | The compiled chain is right in every part: match sets, effective sets, shadowing, redundancy, fall-through and accept set all agree with first-match evaluation. |
| Accept.Forward | crates/engine/src/accept.rs:243-270 | The forward pass assigns each rule exactly the packets it decides, also after saturation cuts it short. |
| Accept.AcceptIsFirstMatch | crates/engine/src/accept.rs:243-298 | A packet is in the accept set if and only if first-match evaluation permits it. |
| Accept.EffectiveSetsPartition | crates/engine/src/accept.rs:219-231 | Each packet is in the effective set of its deciding rule and no other, or in the fall-through set when none matches. |
| Accept.ShadowedExactly | crates/engine/src/accept.rs:243-270 | A rule is marked shadowed if and only if it decides no packet. |
| Accept.WithoutVerdict | crates/engine/src/accept.rs:278-287 | Deleting a rule changes a verdict only for packets it decides, and gives them the verdict of the rules after it. |
| Accept.RedundantExactly | crates/engine/src/accept.rs:278-287 | A rule is marked redundant if and only if deleting that one rule changes no packet's verdict. |
| Accept.ShadowedIsRedundant | crates/engine/src/accept.rs:278-287 | Every shadowed rule is redundant. |
| Deletion.ShadowedTogether | crates/engine/src/accept.rs:243-287 | Deleting any set of shadowed rules at once changes no verdict. |
| Deletion.GoTogetherExactly | crates/engine/src/accept.rs:278-287 | Deleting any set of rules at once changes no packet's verdict if and only if every deleted rule agrees, on all packets it decides, with the verdict of the kept rules behind it. |
| Deletion.VerdictAfterDeletion | crates/engine/src/accept.rs:278-287 | After deleting any set of rules, a packet decided by a deleted rule gets the verdict of the kept rules behind that rule, and any other packet the verdict it had. |
| Deletion.RedundantTogether | crates/engine/src/accept.rs:278-287 | Two rules each of which is redundant, without both of which packets are dropped. |
| Accept.ForwardEqualsBackward | crates/engine/src/accept.rs:187-202 | The accept set rebuilt from the effective sets is the same diagram as the one the backward pass left. |
| Accept.PartitionHolds | crates/engine/src/accept.rs:219-231 | The self-check answers yes if and only if every packet lies in exactly one cell. |
| Accept.Verify | crates/engine/src/accept.rs:205-216 | The combined self-check answers yes if and only if the cells partition the space and both derivations of the accept set agree. |
| Accept.AnalysedModelVerifies | crates/engine/src/accept.rs:205-216 | Every compiled chain passes both self-checks. |
| Accept.Attribute | crates/engine/src/accept.rs:108-124 | The loop returns the attribution cells of the set, in rule order, the policy last. |
| Accept.CellsExact | crates/engine/src/accept.rs:102-124 | Each cell is non-empty, lies in the set and holds only packets its named decider decides; deciders come in order of rule number, the policy last. |
| Accept.CellsComplete | crates/engine/src/accept.rs:102-124 | Every packet of the set is in the cell of its decider. |
| Accept.DecidesIsFirstMatch | crates/engine/src/accept.rs:108-124 | The decider of the compiled chain is the first-match decider of the source chain. |
| Accept.ExplainShadow | crates/engine/src/accept.rs:131-161 | The answer is the first rule that covers the match set alone or, when none does, the overlapping rules of the shortest covering prefix in rule order; nothing for an unknown number or an empty match set. |
| Accept.ShadowedIffCovered | crates/engine/src/accept.rs:126-161 | A rule is shadowed if and only if the rules before it together match all it matches. |
| Accept.ExplanationCovers | crates/engine/src/accept.rs:144-160 | When a prefix of the rules covers a match set, the rules named for that prefix do. |
| Explanation.ShadowExplained | crates/engine/src/accept.rs:126-161 | The rules named for a shadowed rule come before it and together match all it matches. |
| Explanation.InShortestPrefixExactly | crates/engine/src/accept.rs:126-161 | The explanation lies inside the shortest covering prefix if and only if some rule of that prefix covers the match set alone or no earlier rule does. |
| Explanation.CanLeaveShortestPrefix | crates/engine/src/accept.rs:138-142 | A chain of four rules whose fourth is covered by the first two, and is explained by the third. |
| Pairing.PairIs | crates/engine/src/diff.rs:154-175 | Two rules are paired if and only if they have the same content and are the same-numbered occurrence of it. |
| Pairing.AddedIffUnpaired | crates/engine/src/diff.rs:154-175 | A head rule is left over if and only if no base rule is paired with it. |
| Pairing.PairsAreOneToOne | crates/engine/src/diff.rs:154-175 | Pairing is a one-to-one correspondence. |
| Pairing.PairsKeepOrder | crates/engine/src/diff.rs:154-175 | Equal rules are paired in file order. |
| Pairing.PairingIsMaximal | crates/engine/src/diff.rs:154-175 | No left-over base rule has the content of a left-over head rule. |
| Pairing.SelfPairing | crates/engine/src/diff.rs:154-175 | A revision compared with itself pairs every rule with itself. |
| Pairing.PairRules | crates/engine/src/diff.rs:154-175 | The hash map of reversed stacks and the popping loop compute exactly that pairing and both left-over lists. |
| Diff.Compare | crates/engine/src/diff.rs:109-116 | The deltas are the packets permitted on one side only; both are empty if and only if the accept sets are the same diagram; the findings are those below. |
| Diff.DeltaIsFirstMatch | crates/engine/src/diff.rs:109-116 | A packet is newly allowed (blocked) if and only if first-match evaluation denies (permits) it before and permits (denies) it after. |
| Diff.AttributeDelta | crates/engine/src/diff.rs:127-146 | The nested loops return the first cells of the two-sided attribution, up to the cap, and whether any was cut. |
| Diff.DeltaCellsExact | crates/engine/src/diff.rs:127-146 | Each two-sided cell is non-empty and holds only delta packets whose deciders in both revisions are the two named; cells are disjoint and cover the delta. |
| Diff.TruncatedExactly | crates/engine/src/diff.rs:127-146 | Cells were cut if and only if some delta packet is in none of the returned ones. |
| Diff.AttributionIsFirstMatch | crates/engine/src/diff.rs:127-146 | For two chains and any part of the packet space: each returned cell is non-empty and holds exactly the packets of the part whose first-match deciders before and after are the two named; cells are disjoint; the flag is raised if and only if some packet of the part is in no cell. |
| Diff.MatchEdits | crates/engine/src/diff.rs:209-227 | A number left over on both sides is one modification; otherwise it is a removal or an addition; nothing else is reported. |
| Diff.StructuralChanges | crates/engine/src/diff.rs:178-231 | Every finding is true, every change of reachability or redundancy of a paired rule is found, and findings come in order of rule number and kind, no two alike. |
| Diff.BaseRuleFate | crates/engine/src/diff.rs:154-231 | Each base rule is exactly one of paired, modified and removed. |
| Diff.HeadRuleFate | crates/engine/src/diff.rs:154-231 | Each head rule is exactly one of paired, modified and added. |
| Diff.SelfDiffIsEmpty | crates/engine/src/diff.rs:178-231 | Comparing a chain with itself reports nothing. |
| Diff.FindingsUnique | crates/engine/src/diff.rs:178-231 | Two revisions have only one list of true, complete and ordered findings. |
| Symbols.ExtendInjection | crates/ir/src/interface.rs:10-22 | Any one-to-one assignment of some interface values extends to a permutation of all of them. |
| Symbols.RenamingExists | crates/ir/src/interface.rs:10-22 | Between any two tables there is a permutation of the interface values that takes every shared name's value to its value in the other. |
| Symbols.MatchesRenamed | crates/ir/src/interface.rs:143-165 | A match admits a packet under one table if and only if it admits the renamed packet under the other. |
| Symbols.FirstMatchRenamed | crates/engine/src/accept.rs:243-298 | The deciding rule of a packet under one table is that of the renamed packet under the other. |
| Symbols.CarriedSize | crates/ir/src/interface.rs:10-22 | Sets that are each other's renaming have the same exact size and are empty together. |
| Symbols.RuleCarried | crates/engine/src/accept.rs:243-298 | Effective sets are carried over by the renaming; shadowing, redundancy and counts do not change. |
| Symbols.AcceptCarried | crates/ir/src/interface.rs:10-22 | Accept sets are carried over by the renaming, with the same exact size. |
| Tables.ExplainedCarried | crates/engine/src/accept.rs:131-161 | A rule has the same explanation under every table. |
| Tables.FindingsCarried | crates/engine/src/diff.rs:178-231 | Findings that are true, complete and ordered under one table are so under the other. |
| Tables.TableIndependence | crates/ir/src/interface.rs:10-22 | One permutation, which takes every shared name's value to its value in the other table, carries match, effective and accept sets and both deltas of a comparison to those under any other table; shadowing, redundancy, all exact counts and the structural findings are equal. |
| Masks.MaskToIntervals | crates/engine/src/enumerate.rs:92-121 | For every mask word, bits above the field included: the result holds exactly the field values that agree with the pattern, or is refused when the pattern has more runs than the cap. |
| Masks.PatternExact | crates/engine/src/enumerate.rs:92-121 | The expanded set holds exactly the values that agree with the pattern on the fixed bits. |
| Masks.PatternRanges | crates/engine/src/enumerate.rs:92-121 | The runs never merge: there is one range per choice of the free high bits, all of the same length. |
| Masks.RefusedExactly | crates/engine/src/enumerate.rs:92-121 | For a cap of at least one, expansion is refused if and only if the canonical form of the agreeing values has more ranges than the cap. |
| Masks.MaskCountExact | crates/engine/src/enumerate.rs:124-126 | The shift by the number of free bits is the number of agreeing values. |
| Cubes.ReadField | crates/engine/src/enumerate.rs:202-221 | The bit loop gathers the value and mask of a field from a path. |
| Cubes.PatternOfField | crates/engine/src/enumerate.rs:202-221 | A field value agrees with the gathered pattern if and only if its bits agree with the path. |
| Cubes.CubeBoxExact | crates/engine/src/enumerate.rs:141-160 | A packet is in the rectangle of a path if and only if it agrees with the path. |
| Cubes.RenderCube | crates/engine/src/enumerate.rs:141-160 | The rectangle is produced unless some field is beyond the cap; the product counts exactly the fields up to the first one beyond it, which is all of them for a rectangle produced. |
| Cubes.CountedExactly | crates/engine/src/enumerate.rs:149-160 | That product never exceeds the packets of the path, and equals them if and only if the path fixes every bit of every field not counted. |
| Cubes.CountsOneField | crates/engine/src/enumerate.rs:149-160 | A path that fixes one address bit, under a cap of zero, is counted short. |
| Regions.MergeAlong | crates/engine/src/region.rs:115-147 | One pass keeps the union, raises no point's multiplicity, and leaves no two rectangles agreeing on all other dimensions; unchanged count means unchanged list. |
| Regions.Merge | crates/engine/src/region.rs:98-113 | Merging keeps the union and disjointness and drops empties; with at least as many passes as rectangles no two agree on all dimensions but one. |
| Regions.RefinesMeans | crates/engine/src/region.rs:91-113 | The relation every pass keeps means the same union, and disjointness carried over. |
| Regions.DisjointTotal | crates/engine/src/region.rs:68-73 | The sizes of disjoint rectangles add up to the size of their union. |
| Regions.RefinesKeepsTotal | crates/engine/src/region.rs:91-113 | Merging disjoint rectangles keeps the total packet count. |
| Cardinality.BoxCountIsSize | crates/engine/src/region.rs:68-73 | The product of the dimension counts is the number of points, empty dimensions included. |
| Counting.CardinalityIsSize | crates/engine/src/enumerate.rs:224-226 | The exact cardinality, defined variable by variable, is the number of valuations in the set. |
| Enumerate.VisitedInside | crates/engine/src/enumerate.rs:141-160 | The rectangles of any part of the walk are disjoint and inside the set, and cover it if and only if the walk was whole. |
| Enumerate.MergedInside | crates/engine/src/enumerate.rs:162-178 | Merging and sorting keep that. |
| Enumerate.InsideTotal | crates/engine/src/enumerate.rs:180-200 | Disjoint rectangles inside a set count at most its size, with equality if and only if they cover it. |
| Enumerate.Books | crates/engine/src/enumerate.rs:180-200 | Shown packets never exceed the total, and equal it if and only if nothing was cut, refused or left unvisited. |
| Enumerate.SkippedExactly | crates/engine/src/enumerate.rs:161-170 | The packets counted for all refused paths are at most those in them, and all of those if and only if every refused path fixes the fields not counted. |
| Enumerate.Enumerate | crates/engine/src/enumerate.rs:129-200 | For every set and every limit: shown rectangles are disjoint and inside the set, shown plus omitted is the exact total, nothing is omitted if and only if they are the whole set, the incomplete flag is exact, the count of packets that could not be rendered is exactly as above, and the widest rectangles are kept. |
| Enumerate.RegionSet | crates/engine/src/region.rs:83-89 | Turning a rectangle back into a diagram gives exactly its packets. |
| Enumerate.Rebuild | crates/engine/src/enumerate.rs:129-200 | The union of the shown rectangles is the original diagram if and only if no packet is omitted. |
| Flows.ReachesOneMore | crates/engine/src/enumerate.rs:357-372 | Quantifying one more variable is a choice of that bit. |
| Flows.ProjectionSize | crates/engine/src/enumerate.rs:346-372 | The quantified set counts every flow exactly 2^32 times, so the final shift divides exactly. |
| Flows.FlowCount | crates/engine/src/enumerate.rs:357-372 | The count is the number of distinct source, destination, destination port and protocol combinations in the set. |
| Witness.SatWitness | crates/engine/src/packet.rs:55-76 | There is no witness if and only if the set is empty, and a witness is a member. |
| Witness.PacketIn | crates/engine/src/packet.rs:55-76 | The packet read field by field off a witness is in the set. |
| Assertions.AssertionSet | crates/policy/src/eval.rs:98-122 | It fails if and only if an endpoint names an unknown zone or is no readable literal; otherwise the set is exactly the packets the assertion describes. |
| Assertions.Check | crates/policy/src/eval.rs:125-181 | The outcome is vacuous if and only if no described packet matches any rule; otherwise it passes if and only if first match gives every described packet the wanted verdict; a counterexample is described and gets the other verdict. |
| Assertions.Judge | crates/policy/src/eval.rs:133-181 | The same outcome in terms of the compiled sets, before any packet is decoded. |
| Assertions.DecidedIffMatched | crates/policy/src/eval.rs:142-162 | A packet is decided by a rule if and only if some rule matches it. |
| Assertions.VacuousHoldsExactly | crates/policy/src/eval.rs:142-162 | A vacuous claim is true if and only if it describes no packet or the policy gives the wanted verdict. |
| Assertions.VacuousNeedNotHold | crates/policy/src/eval.rs:142-162 | Isolation of everything under an accept policy without rules is vacuous and false. |
| Assertions.CheckTargets | crates/policy/src/eval.rs:217-240 | One exact report for each chain the assertion applies to, in order; an error if and only if there is none or an endpoint does not resolve. |
| Assertions.Evaluate | crates/policy/src/eval.rs:217-240 | All assertions in order, all their chains; an error if and only if one of them cannot be checked. |
| Lexer.Lex | crates/nft/src/lex.rs:87-181 | The tokeniser returns the tokens of the specification followed by the end mark, or its error. |
| Lexer.Lexer.SkipBlank | crates/nft/src/lex.rs:92-111 | The inner loop removes exactly the blanks, comments and line continuations ahead. |
| Lexer.Lexer.ReadNumberOrIp | crates/nft/src/lex.rs:184-210 | A number, or four octets packed most significant first; other counts of octets and octets over 255 are errors. |
| Lexer.Lexer.ReadNumber | crates/nft/src/lex.rs:212-231 | A run of digits becomes its value, or an error when it exceeds 64 bits. |
| Lexer.Lexer.ReadWord | crates/nft/src/lex.rs:87-181 | A word ends before a hyphen that a digit follows. |
| Lexer.PackedFits | crates/nft/src/lex.rs:184-210 | Four octets make a 32-bit address, most significant first. |
| Parser.Parser.ReadFile | crates/nft/src/parse.rs:139-167 | The recursive-descent loops accept and yield exactly what the grammar says of the remaining tokens. |
| Parser.Parser.ReadTable | crates/nft/src/parse.rs:169-231 | The same for a table. |
| Parser.Parser.ReadChain | crates/nft/src/parse.rs:233-355 | The same for a chain with its declaration and rules. |
| Parser.Parser.ReadRule | crates/nft/src/parse.rs:359-597 | The same for a rule, soundness check included. |
| Parser.Parser.ReadSpec | crates/nft/src/parse.rs:800-963 | The same for addresses, ports and protocols, negated or listed. |
| Parser.Parser.ReadIfSpec | crates/nft/src/parse.rs:965-1016 | The same for interface matches. |
| Parser.Parser.ReadPortMatch | crates/nft/src/parse.rs:747-773 | The same for port matches, which pin the protocol. |
| Parser.Parse | crates/nft/src/parse.rs:1020-1022 | The whole frontend computes the chains the text means, or the cause of its rejection. |
| Accepted.ClausesKeep | crates/nft/src/parse.rs:359-597 | Whatever clauses are read, ports stay constrained only together with tcp or udp. |
| Accepted.AcceptedRule | crates/nft/src/parse.rs:600-640 | An accepted rule pins its ports to tcp or udp and can match some value in every dimension. |
| Accepted.PortGateIsImplied | crates/nft/src/parse.rs:600-640 | After reading all clauses the soundness check passes if and only if the match is satisfiable. |
| Accepted.FileAccepted | crates/nft/src/parse.rs:139-167 | All this holds of every rule of every chain of an accepted file, and rules are numbered from one. |
| Accepted.FirstMatchIgnoresPorts | crates/nft/src/parse.rs:600-640 | With such rules, packets without ports that differ in port fields only get the same deciding rule. |
| Accepted.PortsDoNotMatter | crates/nft/src/parse.rs:600-640 | In every accepted file, two packets of a protocol without ports that differ only in ports get the same decider and verdict. |
| Accepted.BareIifnameRefused | crates/nft/src/parse.rs:396-420 | On an output chain a rule in which a bare iifname is reached, at any position, is rejected as unsound. |
| Accepted.OutputIifExactly | crates/nft/src/parse.rs:719-745 | An accepted rule of an output chain leaves the input interface free if and only if no clause meta iifname is reached in it. |
| Accepted.MetaReachesOutput | crates/nft/src/parse.rs:726-729 | A family of rules that are accepted on an output chain and constrain its input interface. |
| Accepted.SecondIifnameExactly | crates/ir/src/rule.rs:166-169 | After two input interface matches a rule means their conjunction if and only if every interface value the second admits is admitted by the first, or no packet satisfies the rest of the match. |
| Accepted.SecondIifnameForgets | crates/ir/src/rule.rs:166-169 | Two different interface names are an input where it does not. |
| Accepted.SecondConstraintNarrows | crates/ir/src/rule.rs:112-127 | Matching any other dimension twice is matching the intersection. |
| Skipping.RuleIsKept | crates/nft/src/parse.rs:359-597 | Every accepted rule has the match, the verdict and the end that its listed forms alone have, with everything else the parser passes over taken out. |
| Skipping.AcceptedRuleIsListedExactly | crates/nft/src/parse.rs:359-597 | Nothing of an accepted rule is passed over if and only if every reached counter has numbers for its values, every log option is listed and has an ordinary value, and every reason of a reject is tcp reset or holds no known word: a condition on the tokens. |
| Skipping.AcceptedRuleLosesNothingExactly | crates/nft/src/parse.rs:359-597 | The tokens of an accepted rule are those kept and those passed over, none counted twice; a match word, a verdict, a statement end, a named set or a word refused by name is among the latter if and only if one stands where a counter takes a number, a log option its value, or behind the reason of a reject. |
| Skipping.PassedExactly | crates/nft/src/parse.rs:359-597 | Both conditions, from any state of reading a statement. |
| Skipping.StatementSplits | crates/nft/src/parse.rs:359-597 | Every token read is kept or passed over, and when none is passed over the tokens kept are those read, in order. |
| Splicing.ClauseSplice | crates/nft/src/parse.rs:692-1016 | A match, comment or verdict clause is read the same whatever harmless tokens follow it, and consumes the same tokens. |
| Skipping.CounterTakesAnything | crates/nft/src/parse.rs:661-668 | For every token: written where a packet count belongs it leaves an accepted rule that accepts everything; the rule is listed if and only if the token is a number, and loses something if and only if the token is known. |
| Skipping.CounterSwallowsVerdict | crates/nft/src/parse.rs:661-668 | A verdict written where a packet count belongs is lost, and the rule takes the next one. |
| Skipping.CounterSwallowsNat | crates/nft/src/parse.rs:661-668 | Address translation written there is lost, and the file is not rejected for it. |
| Skipping.CounterSwallowsLineEnd | crates/nft/src/parse.rs:661-668 | A line end written there is lost, and the next line joins the rule. |
| Skipping.LogSwallowsVerdict | crates/nft/src/parse.rs:671-688 | A verdict after a log option is lost. |
| Skipping.RejectSwallowsMatch | crates/nft/src/parse.rs:513-522 | An address match after the reason of a reject is lost, and the rule rejects everything. |
| Skipping.TcpResetIsListed | crates/nft/src/parse.rs:513-522 | A reject with a tcp reset loses nothing. |
| Skipping.DeviceExactly | crates/nft/src/parse.rs:306-308 | A chain declaration has its priority, or the word device and one more token in front of it, and reads the same without those two. |
| Skipping.DeviceTakesAnything | crates/nft/src/parse.rs:306-308 | That token can be any. |
| Skipping.ChainLosesDevice | crates/nft/src/parse.rs:233-355 | A chain with a device reads the same without it. |
| Origins.FileNames | crates/nft/src/parse.rs:139-355 | In every accepted file each chain is named by a word of the lexer; the interface names hold at most half of the backslashes of the file and, when it has none, no quote. |
| Origins.LexedCounts | crates/nft/src/lex.rs:87-181 | The tokens of a text hold at most half of its backslashes, and every word among them is one. |
| Origins.TablesWeight | crates/nft/src/parse.rs:139-355 | The chains read from a token list hold no more of any character in their interface names than its tokens, and take their own names from it. |
| Pieces.LexName | crates/nft/src/lex.rs:87-181 | Every writable name, followed by something that ends a word, is read as one word. |
| Names.WordComesBackExactly | crates/nft/src/lex.rs:87-181 | A table or chain name is read as one word, itself, if and only if it is made of letters, digits, underscores, dots and hyphens, starts with a letter or underscore, and has no hyphen in front of a digit. |
| Names.NameComesBackExactly | crates/nft/src/lex.rs:129-146 | The UTF-8 bytes of an interface name between quotes are read as that name if and only if it is ASCII without quotes and backslashes. |
| Pieces.ScanDecimal | crates/nft/src/lex.rs:212-231 | Reading the decimal form of a 64-bit number gives the number. |
| Pieces.OctetsPacked | crates/kerneldiff/src/emit.rs:14-16 | Splitting an address into octets and packing them gives the address. |
| Pieces.LexQuad | crates/kerneldiff/src/emit.rs:14-16 | A printed address is read as that address. |
| Pieces.LexPieces | crates/nft/src/lex.rs:87-181 | Text made of well-spaced pieces is read as exactly their tokens. |
| Emitter.EmitRule | crates/kerneldiff/src/emit.rs:58-117 | The text of a rule is that of its pieces; it is refused if and only if ports are constrained without tcp or udp. |
| Emitter.EmitChain | crates/kerneldiff/src/emit.rs:127-148 | The same for a chain, which is refused if and only if one of its rules is. |
| Printed.RulePiecesToks | crates/kerneldiff/src/emit.rs:58-117 | The pieces of a rule are its clauses as the parser sees them. |
| Printed.ChainTextTokens | crates/kerneldiff/src/emit.rs:127-148 | The text of a chain whose names can be written is read as exactly the chain's tokens. |
| Reread.AddressSpecReads | crates/kerneldiff/src/emit.rs:18-30 | Parsing the printed prefixes of a non-empty address set gives a structurally equal set. |
| Reread.PortSpecReads | crates/kerneldiff/src/emit.rs:32-45 | Parsing the printed ranges of a non-empty port set gives a structurally equal set. |
| Reread.IfSpecReads | crates/kerneldiff/src/emit.rs:61-67 | Parsing the printed names of an interface set gives the same set. |
| RoundTrip.MatchReads | crates/kerneldiff/src/emit.rs:58-117 | Parsing the printed clauses of a printable match gives the match. |
| RoundTrip.RuleReads | crates/nft/src/parse.rs:359-597 | Parsing a printed rule gives its match and action, and stops at its end. |
| RoundTrip.FileReads | crates/nft/src/parse.rs:139-355 | The tokens of a printed chain parse to one chain with the same rules. |
| RoundTrip.PrintParse | crates/kerneldiff/src/main.rs:800-833 | Printing any printable chain and parsing the text gives back hook, policy, actions and structurally equal matches; the very chain when its rules are numbered in order. |
| RoundTripExact.SaidComesBack | crates/kerneldiff/src/emit.rs:58-148 | For every chain the emitter writes whose names can stand in the text: what comes back is what the text says if that is printable, and a rejection otherwise. Other chains: Survival.SurvivesExactly. |
| Stored.BytesKeepOrder | crates/kerneldiff/src/emit.rs:61-67 | Names stay in order when they are spelled in UTF-8. |
| Stored.BytesOfChain | crates/kerneldiff/src/emit.rs:127-148 | The bytes of a chain's text are the text of the chain with its interface names in bytes, and all its backslashes come from those names. |
| Survival.NothingSpecial | crates/kerneldiff/src/main.rs:800-833 | A chain whose body comes back has no backslash and no quote in any interface name. |
| Survival.BodySurvivesExactly | crates/kerneldiff/src/main.rs:800-833 | A chain named by a word has its hook, policy, actions and matches come back from its file if and only if it is printable and its interface names are in ASCII; its name then comes back too. |
| Survival.SurvivesExactly | crates/kerneldiff/src/main.rs:800-833 | Of all chains, with any names of their own and of interfaces, exactly the printable ones with interface names in ASCII come back the same from the file they are written to. |
| Survival.BlankNameIsLost | crates/kerneldiff/src/main.rs:800-833 | Every chain that comes back passes the comparison with a blank put in front of its name, and does then not come back the same. |
| Survival.CheckRoundTrip | crates/kerneldiff/src/main.rs:800-833 | The harness comparison answers yes if and only if the body came back from the file; for a chain named by a word, if and only if it is printable and its interface names are in ASCII. |
| RoundTripExact.ExcludedInterfaceIsLost | crates/kerneldiff/src/emit.rs:58-67 | A rule that excludes interfaces, any of them, is written without that and comes back matching everything. |
| RoundTripExact.SentinelIsRejected | crates/kerneldiff/src/emit.rs:127-148 | With the sentinel counter in it the text is no frontend input. |
| Calendar.DayNumberCounts | crates/engine/src/report/mod.rs:478-489 | The day number of the calendar counts days: zero on 1970-01-01 and one more on each next day. |
| Calendar.DayNumberInjective | crates/engine/src/report/mod.rs:478-489 | Different dates have different day numbers. |
| Calendar.CivilDayNumber | crates/engine/src/report/mod.rs:478-489 | The converted date has the day number it came from, or is one day late, exactly known which. |
| Calendar.CivilExactly | crates/engine/src/report/mod.rs:478-489 | Conversion gives a valid date with the right day number if and only if the day count is at or after 0000-03-01 or ends a 400-year era. |
| Calendar.CivilInverse | crates/engine/src/report/mod.rs:478-489 | Converting the day number of such a date gives the date. |
| Calendar.CivilSuccessor | crates/engine/src/report/mod.rs:478-489 | From 0000-03-01 on, the next day count gives the calendar successor. |
| Calendar.StampExact | crates/engine/src/report/mod.rs:469-474 | For all seconds the hour, minute and second are in range; the stamp is a date and denotes that very second if and only if its day is one the conversion gets right, and denotes the same second a day later otherwise. |
| Render.FormIsExact | crates/engine/src/render.rs:63-89 | Both ways of writing an address set denote exactly the set. |
| Render.EnclosingCovers | crates/engine/src/render.rs:63-89 | The enclosing block covers the set. |
| Render.EnclosingIsSmallest | crates/engine/src/render.rs:63-89 | No longer prefix covers the set. |
| Render.FewestBlocks | crates/engine/src/render.rs:63-89 | No list of blocks denoting the set has fewer terms than the form chosen. |
| Render.FewestHoles | crates/engine/src/render.rs:63-89 | No block with holes denoting the set has fewer terms than the form chosen, whichever block it starts from. |
| Json.Render | crates/cli/src/json.rs:51-105 | Reading the written text gives back the value written. |
| Json.CharsRead | crates/cli/src/json.rs:107-125 | Every string literal written is read, by section 7 of RFC 8259, as the string. |
| Json.ValueReads | crates/cli/src/json.rs:58-104 | A value written at any depth is read back whole, and reading stops where it ends. |
| Json.TextDecides | crates/cli/src/json.rs:51-56 | Different values have different texts. |

## Left out

- The decision diagram library: node table, caches, and the order in which it lists paths. The
  model fixes one order of paths; under a cube limit another order would visit other rectangles,
  about which the same theorems hold.
- Diagram sizes, timing and memory figures.
- Content keys are hashes in the source (crates/engine/src/accept.rs:235). The model takes the
  content itself, so colliding hashes are not modelled.
- `Match`, `Chain` and the symbol table are values in the model. The source updates them in place
  through owned values (`constrain`, `relax`, `push`), where no alias can observe the difference.
- Machine widths: values, counts and positions are naturals. The overflow checks of the number
  scanner and the 64-bit domain and mask arithmetic are written out; counts never exceed 2^120.
- Lists of addresses, of ports and of protocols are three copies of one loop in the source
  (crates/nft/src/parse.rs:800-963). The model has one, over the kind of value.
- Text is its bytes, one character each. Line and column numbers, messages, hints and rule origins
  are left out; of an error only its cause is kept.
- Rows cut for display (`omitted_flows`, crates/engine/src/report/mod.rs:362-384), hoisting of
  columns, tables, truncated lists of terms, and the text of ports, protocols and interfaces.
- The digits and separators of a time stamp: `Calendar.StampExact` is about its six numbers.
- The assertion file reader rests on a TOML library that is not part of this model; assertions
  start parsed. The hint about endpoints that no rule mentions is left out.
- Command line, file reading, version control, SHA-256, attestation, HTML, and the kernel harness
  with its generator, apart from its printing and parsing comparison.
- RoundTripExact.SaidComesBack: for chains whose names can stand in the text. It is a step towards
  Survival.SurvivesExactly, which is about all of them.
- Survival.CheckRoundTrip: for a chain whose own name is no word the answer is whether its body came
  back, without a condition on the chain that decides it; the name itself is then never the same.
- Json.Render: the reader refuses fractions, exponents, signs and surrogate escapes, none of which
  the writer produces.
- Explanation.ShadowExplained: rules are numbered by position, as every chain built by `push` is.
