# Verification of OVN's match compiler and switch synchronisation

A Dafny model of parts of Open Virtual Network (OVN), with proofs:

* **The match compiler** of `lib/expr.c`: parsing, annotation, simplification, normalisation to OR(AND(clause)), and
  emission of flows with the conjunctive match extension. The main result is end to end: the flows accept a packet
  exactly when the match is true of it. `Grammar` says what a match is, when it is accepted and what it says by the bits
  of a packet, without looking at the parser; `MatchLanguage` proves that the parser accepts exactly that and returns
  what was said. Modules: `Tokens`, `Parsing`, `ParseResults`, `ParseMasks`, `Grammar`, `Comparisons`, `ParsedPhrases`,
  `MatchLanguage`, `Formatting`, `RoundTrip`, `MatchText`, `Expressions`, `Annotation`, `Simplification`, `Sorting`,
  `Crushing`, `Normalization`, `Matches`, `LogicalFlows`, `ConjunctionIds`, `SharedIds`.
* **Switch synchronisation** of `controller/ofctrl.c` with `lib/extend-table.c`: the connection state machine, flow table
  diffing, group and meter ids, updates in flight, and the conntrack flush handshake. `SwitchSync` puts the controller, a
  connection and a switch together as one state machine and proves an invariant of every run; the modules after it draw
  the conclusions. Modules: `OpenFlow`, `ExtendTables`, `Controller`, `SwitchSync`, `SwitchGuarantees`, `FlushAnswers`,
  `PutReports`, `PutOrder`, `Negotiation`.
* **Smaller kernels**: conntrack zone allocation (`CtZones`, `ZoneEntries`), HA gateway election (`HaChassis`), the save/assign/restore
  encoding of arguments (`StackArgs`), and discovery of local datapaths (`LocalDatapaths`, `DepthLimit`, `WalkOrder`,
  `Topologies`).

Each algorithm is a function on values, about which the properties are proved. Where the source works by changing things
step by step, a method or class in the source's own form is proved to do what the function says: `ParserLoops`,
`SimplifyLoops`, `CrushLoops`, `NormalizeLoops`, `MatchLoops`, `TranslationLoops`, `ExtendTableImpl`, `OfctrlImpl`, and
the classes in `CtZones` and `LocalDatapaths`. `dafny verify dfyconfig.toml` checks everything.

## How things are modelled

* A field value, mask or bitmap is the set of positions of its 1-bits. `memcmp()` on big-endian buffers compares from the
  most significant bit; `Bits.CompareIsNumeric` ties that to numbers.
* A packet, the port lookup and the residency answers form an environment. Port lookup has to be injective where it
  succeeds: `crush_and_string()` takes different names for different ports. A name that is not known makes any
  comparison with it false, as in `expr_evaluate_cmp()`. `expr_evaluate()` takes every chassis residency condition for
  true; here it is whatever the environment says, which includes that.
* Different symbols stand for independent fields, so that a packet may give any values to them. Symbols that share a
  place in the packet, such as tcp.src and udp.src, are kept apart by their prerequisites only.
* The symbol table is acyclic, and a subfield's parent is not itself a subfield, as `ovn_init_symtab()` builds it.
  `expr_annotate_cmp()` substitutes the parent only once, and the path that hoists prerequisites does not record the
  symbol as being expanded, so neither restriction is checked by the code. A predicate that may be negated involves no
  string, neither in its expansion nor in the prerequisites of the symbols there; `expr_get_level()` makes a predicate
  with a string in its expansion nominal, but does not look at prerequisites.
* The symbol table is as the `expr_symtab_add_*()` functions build it: strings are nominal, and predicates have one bit. A
  constant is checked against the width of the whole field even if it is compared with a part of it; only as many of its
  bits count as the part has (`lib/expr.c:478-556`). Of positions in square brackets, and of "0" and "1" by themselves,
  only the low 64 bits are looked at.
* `qsort()` is a stable insertion sort. The second comparison of `compare_expr_sort()` compares a value with itself and
  so never matters; only the grouping by symbol name does.
* A hash table is a map, and a walk over one visits its keys in any order. The flows, groups and meters of a put
  therefore come in an arbitrary order.
* The switch processes messages in the order they were sent and answers a barrier after everything before it (section
  6.2 of the OpenFlow Switch Specification 1.3); ADD, MODIFY_STRICT and DELETE_STRICT are those of section 6.4. It
  accepts every modification. A connection that is lost is one on which nothing more is processed. Flows are keys with
  actions.
* Transaction ids are drawn in increasing order for the messages whose answer matters. Whether messages are still queued
  or the protocol version is unknown, which keeps `ofctrl_put()` from sending, is an input of each put.
* Conjunction ids are 32-bit numbers, and `Shift` wraps around like them. Other integers do not come near their limits.
* The HA comparison function subtracts priorities as 64-bit numbers and truncates to 32 bits; the schema's range of
  0..32767 is what makes that safe, and is assumed.

## Where the code falls short of what is said about it

* `expr_format()` is documented to print an expression in a form that parses back into an equivalent one
  (`lib/expr.c:418-420`). `RoundTrip.FormatThenParse` gives the exact condition. `MatchText.PartialMaskNotReadBack` is a
  family of matches that the parser accepts and for which it fails: "eth.type == 0x800/0xff00" (`MatchText.EthTypeMatch`)
  is printed with a subfield, which a nominal field may not have.
* `make_cmp()` rejects masks with "<" and the like only on the first constant. With an address set written without curly
  brackets, a later constant may have one. `ParseMasks.WellFormedIff` gives the exact condition on the tokens of a whole
  match under which the result is still well formed, and `MatchText.MaskedSetComparison` shows both outcomes. Without it
  the match gets to the assertion in `expr_simplify_relational()` (`lib/expr.c:1952`), which ends the process.
* A put that finds nothing to do reports its configuration number at once. Right after the tables have been cleared, the
  switch may not have processed that yet: `SwitchGuarantees.ReportTooEarly`. The report is right if and only if a put has
  sent a barrier since the clearing, the switch has processed the clearing, or it had no flows to begin with:
  `SwitchGuarantees.ReportAtOnceRight`. This is about the interface of `controller/ofctrl.c`: it takes a put of an empty
  table, and without one every report is backed (`SwitchGuarantees.BackedUnlessEmpty`). `ovn-controller` never puts an
  empty table, since `physical_run()` always adds flows first (`controller/physical.c:1233`).
* A datapath is documented to be local if patch ports reach it from a local one (`controller/ovn-controller.h:43-49`),
  however far; the code stops at depth 100.
  - The local set: every local datapath is within 100 hops of a requested one (`DepthLimit.LocalIsWithin`), so one that is
    farther from all of them is missing (`DepthLimit.FarIsMissing`). If the set is not the documented one, a path without
    repetition of 101 hops leads to a missing datapath (`DepthLimit.MissingIsDeep`). In a topology without cycles the set
    for a request is right if and only if nothing that can be reached is more than 100 hops away
    (`Topologies.TreeLocalIff`); in a chain, if and only if there are at most 101 datapaths (`Topologies.ChainLocalIff`).
    A later request can make up for what an earlier one has missed: requests for both ends of a chain find all of it if
    and only if there are at most 202 datapaths (`Topologies.BothEndsIff`).
  - The peers recorded with each: those of a datapath found at depth 100 are not recorded, and no later request makes up
    for that (`LocalDatapaths.NeverRepaired`). In any topology all are recorded if and only if, for every datapath with
    peers, the first path to it without repetition, in the order of the ports and from the first request that reaches it,
    has at most 100 datapaths (`WalkOrder.ExactIffFirstPaths`).
* The offset of conjunction ids wraps around. Two logical flows share an id if and only if they use ids that are set aside
  a multiple of 2^32 apart (`ConjunctionIds.SharedIffCongruent`); where every id set aside is used, if and only if more
  than 2^32 are (`ConjunctionIds.SharedIdIff`). Of 2^32 + 1 logical flows with a match such as
  "eth.dst == {00:00:00:00:00:01, 00:00:00:00:00:02} && eth.src == {00:00:00:00:00:03, 00:00:00:00:00:04}", two do
  (`SharedIds.TooManyFlows`).
* The comment on S_TLV_TABLE_MOD_SENT says that an error disables Geneve (`controller/ofctrl.c:318-319`), but the error
  path leaves the field as it is. The field is not part of this model.

## Model

| member | source | states |
|---|---|---|
| `Bits.CompareIsNumeric` | lib/expr.c:3181-3222 | memcmp() of two big-endian buffers orders them as the numbers they hold, for every width |
| `Expressions.EvalCombine` | lib/expr.c:165-189 | expr_combine() means "a op b" whether or not it merges nodes of the same type |
| `Expressions.EvalNot` | lib/expr.c:215-244 | expr_not() negates, as long as every port name it mentions is known |
| `Expressions.NotInvolutive` | lib/expr.c:215-244 | expr_not() applied twice gives the expression back |
| `Simplification.FindRangeExact` | lib/expr.c:312-326 | find_bitwise_range() succeeds exactly on the nonempty contiguous masks and returns the range |
| `Simplification.EvalFix` | lib/expr.c:246-304 | expr_fix() keeps the meaning of an AND or OR node |
| `Simplification.NeCorrect` | lib/expr.c:1906-1942 | "!=" becomes equality tests with exactly the same meaning |
| `Simplification.RelationalCorrect` | lib/expr.c:1944-2001 | "<", "<=", ">" and ">=" on any contiguous bit range become equality tests with exactly the same meaning, special cases included |
| `Simplification.DisjunctBound` | lib/expr.c:1906-2001 | a comparison becomes at most as many disjuncts as its mask has bits; with an empty mask it is decided |
| `Simplification.RelDisjunctsDisjoint` | lib/expr.c:1980-2001 | outside of the all-ones and all-zeros cases, no packet satisfies two of the disjuncts |
| `Simplification.SimplifyCorrect` | lib/expr.c:2029-2059 | expr_simplify() keeps the meaning; its result is a constant or keeps the structural invariants with equality tests, nonzero masks and no conditions |
| `SimplifyLoops.Ne` | lib/expr.c:1906-1942 | the loop over the mask bits yields SimplifyNe() |
| `SimplifyLoops.Relational` | lib/expr.c:1944-2001 | the branches and the loop over the bits to split at yield SimplifyRelational() |
| `SimplifyLoops.Splits` | lib/expr.c:1976-2001 | the loop over the bits to split at yields the disjuncts of RelDisjuncts(), combined |
| `SimplifyLoops.FixAndOr` | lib/expr.c:246-275 | the loop with its early return yields Fix() |
| `SimplifyLoops.SimplifyTree` | lib/expr.c:2029-2059 | the recursion with its loop over operands yields Simplify() |
| `SimplifyLoops.Negate` | lib/expr.c:215-244 | the recursion with its loop over operands yields Not() |
| `Sorting.SortSorted` | lib/expr.c:2455-2455 | sorting puts the elements in order, for any comparison that is a total preorder |
| `Sorting.DedupDistinct` | lib/expr.c:2457-2469 | after sorting, dropping adjacent equals drops every duplicate |
| `Sorting.DedupKeeps` | lib/expr.c:2457-2469 | dropping adjacent equals loses no element |
| `Crushing.IntersectMeaning` | lib/expr.c:2246-2262 | intersecting two masked constants is their conjunction; failure means that they contradict each other |
| `Crushing.CrossPairsMeaning` | lib/expr.c:2335-2372 | multiplying out two disjunctions gives their conjunction |
| `Crushing.GatherMeaning` | lib/expr.c:2255-2288 | folding the operands of an AND into one constant and the remaining disjunctions keeps the meaning |
| `Crushing.AndStringCorrect` | lib/expr.c:2147-2242 | crush_and_string() keeps the meaning for injective port lookups and returns a clause or false |
| `Crushing.SortUniqueExact` | lib/expr.c:2446-2469 | crush_or() keeps exactly the distinct comparisons |
| `Crushing.OrItemsCorrect` | lib/expr.c:2429-2472 | crush_or() keeps the meaning and returns a clause or false |
| `Crushing.Crush` | lib/expr.c:2478-2503 | crush_cmps() terminates (height, then number of OR operands) and returns a comparison, a disjunction of comparisons, or false: never true |
| `Crushing.CrushCorrect` | lib/expr.c:2478-2503 | crush_cmps() keeps the meaning |
| `Crushing.CrushedOrDistinct` | lib/expr.c:2429-2472 | crushing a disjunction leaves every disjunct once |
| `CrushLoops.IntersectAll` | lib/expr.c:2312-2323 | the loop over the disjuncts yields IntersectEach() |
| `CrushLoops.CrossAll` | lib/expr.c:2347-2372 | the nested loops yield CrossPairs() |
| `CrushLoops.GatherAll` | lib/expr.c:2255-2288 | the loop with its early returns yields Gather() |
| `CrushLoops.Unique` | lib/expr.c:2457-2469 | the loop that drops adjacent duplicates yields Dedup() |
| `CrushLoops.CrushAndNumeric` | lib/expr.c:2246-2401 | crush_and_numeric() after its operands are crushed yields Crush(), recursion included |
| `CrushLoops.CrushExpr` | lib/expr.c:2478-2503 | the mutual recursion with its loops yields Crush() |
| `Normalization.ExprSortMeaning` | lib/expr.c:2513-2580 | expr_sort() keeps the meaning of the AND |
| `Normalization.ExprSortForm` | lib/expr.c:2513-2580 | expr_sort() always returns an expression: false, one operand, or an AND in which no symbol has two clauses |
| `Normalization.NothingToMerge` | lib/expr.c:2594-2616 | after expr_sort() the merging loop of expr_normalize_and() finds nothing to merge |
| `Normalization.ExpandAtMeaning` | lib/expr.c:2622-2655 | multiplying out an operand keeps the meaning |
| `Normalization.ExpandBelow` | lib/expr.c:2622-2655 | each conjunction that multiplying out yields is smaller: in total size of the operands without a unique symbol, or else in the number of must-crossproduct symbols held as disjunctions |
| `Normalization.NormalizeCorrect` | lib/expr.c:2702-2724 | expr_normalize() terminates and returns an equivalent constant or OR(AND(clause)): each clause a comparison or a disjunction of comparisons on one symbol, no symbol in two clauses of one AND, no must-crossproduct symbol as a disjunction inside an AND |
| `NormalizeLoops.SortExpr` | lib/expr.c:2513-2580 | the sort and the loop over runs of one symbol yield ExprSort() |
| `NormalizeLoops.Merge` | lib/expr.c:2594-2616 | the loop over adjacent operands yields MergeAdjacent() |
| `NormalizeLoops.Distribute` | lib/expr.c:2630-2652 | the nested loops yield ExpandAt() |
| `NormalizeLoops.NormalizeConjunction` | lib/expr.c:2587-2656 | expr_normalize_and() yields NormalizeAnd() |
| `NormalizeLoops.NormalizeDisjunction` | lib/expr.c:2658-2692 | expr_normalize_or() yields NormalizeOr() |
| `NormalizeLoops.NormalizeExpr` | lib/expr.c:2702-2724 | expr_normalize() yields Normalize() |
| `Matches.MergeKeepsAcceptance` | lib/expr.c:2767-2796 | merging flows with equal matches, which drops conjunctions next to an ordinary flow, accepts the same packets as the flows before merging |
| `Matches.ConstrainMeaning` | lib/expr.c:2805-2834 | replacing a field of the match is the same as intersecting with the comparison, for a field that the match says nothing of |
| `Matches.ConjunctiveStops` | lib/expr.c:2894-2917 | a conjunction that stops at a clause with no known port is false, its flows accept nothing, and none of them could complete it |
| `Matches.ConjunctionCorrect` | lib/expr.c:2865-2927 | the flows of one AND accept a packet exactly if the AND is true, half-built conjunctions included |
| `Matches.ToMatchesCorrect` | lib/expr.c:2977-3031 | for every normalised expression, the flows accept a packet exactly if the expression is true |
| `MatchLoops.MatchTable.MatchAdd` | lib/expr.c:2767-2796 | expr_match_add() updates the table to Build() of the flows added so far |
| `MatchLoops.MatchTable.AddDisjunction` | lib/expr.c:2836-2862 | the loop adds the flows of Disjunction() and tells whether there were any |
| `MatchLoops.MatchTable.ConstrainCmps` | lib/expr.c:2877-2898 | the first loop of add_conjunction() yields the constrained match and the number of clauses |
| `MatchLoops.MatchTable.AddClauses` | lib/expr.c:2909-2927 | the clause loop adds the flows of Conjunctive(), stopping at a clause without flows |
| `MatchLoops.MatchTable.AddConjunction` | lib/expr.c:2865-2927 | add_conjunction() adds the flows of Conjunction() and advances the id counter |
| `MatchLoops.MatchTable.ConvertToMatches` | lib/expr.c:2977-3031 | expr_to_matches() yields ToMatches() |
| `Annotation.Annotate` | lib/expr.c:1717-1886 | expr_annotate__() terminates on acyclic symbol tables; annotating again an expression with nothing to expand changes nothing |
| `Annotation.SubfieldMeaning` | lib/expr.c:1735-1750 | a comparison moved to the parent field means what it meant on the subfield |
| `Annotation.HoistMeaning` | lib/expr.c:1760-1803 | prerequisites applied once to a tree over one symbol mean the same as applied at each comparison |
| `Annotation.AnnotateCorrect` | lib/expr.c:1805-1892 | annotation succeeds and means the same as the naive form: prerequisites at every comparison, subfields by their own bits, predicates expanded or negated |
| `LogicalFlows.CompileCorrect` | controller/lflow.c:283-305 | end to end: simplify, normalise and emit yields flows that accept a packet exactly when the expression evaluates to true, for every residency answer and injective port lookup |
| `LogicalFlows.MatchCorrect` | controller/lflow.c:262-305 | from the parsed match on: annotation succeeds, and the flows accept a packet exactly when the match is true of it in the naive sense |
| `ConjunctionIds.CompileIds` | lib/expr.c:2906-2906 | the conjunction ids of a table are in 1..n for the reported n |
| `ConjunctionIds.ShiftTable` | controller/lflow.c:327-366 | every match and conjunction gets its id moved up, and nothing else changes |
| `ConjunctionIds.AddLogicalFlows` | controller/lflow.c:154-184 | each match gets its ids moved past those of all matches before it, in 32 bits; a match without flows takes none |
| `ConjunctionIds.TranslationCorrect` | controller/lflow.c:327-374 | wherever its ids start, and even if they wrap around, a flow set accepts exactly the packets that the match is true of |
| `ConjunctionIds.NoSharedId` | controller/lflow.c:374-374 | two logical flows never share a conjunction id as long as at most 2^32 ids are set aside altogether |
| `ConjunctionIds.SharedIffCongruent` | controller/lflow.c:327-374 | two logical flows share a conjunction id if and only if their matches use ids that are set aside a multiple of 2^32 apart |
| `ConjunctionIds.SharedIdIff` | controller/lflow.c:327-374 | where every id set aside is used, two logical flows share one if and only if more than 2^32 are set aside |
| `SharedIds.CompileChoices` | lib/expr.c:2902-2926 | a match on two fields with two values each takes exactly one conjunction id and uses it |
| `SharedIds.TooManyFlows` | controller/lflow.c:327-374 | of 2^32 + 1 logical flows with such a match, two share a conjunction id |
| `TranslationLoops.Translate` | controller/lflow.c:283-305 | the methods for the three steps together: the table accepts a packet exactly when the expression is true of it |
| `Tokens.BitsOfNumber` | lib/expr.c:478-502 | the bits of the number that a field holds are the field |
| `ParserLoops.Parser.ParseConstantSet` | lib/expr.c:846-870 | the loop over constants yields ParseConstantSet() and leaves the same tokens |
| `ParserLoops.Parser.ParseField` | lib/expr.c:638-702 | parse_field() yields ParseField() and leaves the same tokens, errors included |
| `ParserLoops.Parser.MakeCmp` | lib/expr.c:559-636 | make_cmp() with its loops yields MakeCmp() for the current state of "!"; what that accepts and means is `Comparisons.AcceptedIff` and `Comparisons.ComparisonSays` |
| `ParserLoops.Parser.ParsePrimary` | lib/expr.c:1083-1213 | expr_parse_primary() yields ParsePrimary() and restores the nesting depth and the "!" flag |
| `ParserLoops.Parser.ParseNot` | lib/expr.c:1215-1238 | expr_parse_not() yields ParseNot(), toggling the "!" flag and restoring it |
| `ParserLoops.Parser.ParseExpr` | lib/expr.c:1240-1271 | expr_parse__() with its loop yields ParseExpr() |
| `ParserLoops.Parser.Parse` | lib/expr.c:1278-1318 | the whole input is parsed exactly as Parse() says |
| `Comparisons.AcceptedIff` | lib/expr.c:531-636 | make_cmp() accepts a field, an operator and constants if and only if strings meet a string field, numbers fit the width of the others, an operator like "<" meets an ordinal field and a plain number outside of curly brackets, and a nominal field is asked for in the polarity that the enclosing "!" call for |
| `Comparisons.ComparisonSays` | lib/expr.c:478-636 | for every accepted field, operator and set: "==" holds of a packet exactly if the field's number under some constant's mask is that constant, any other operator exactly if it is true of each constant; a string exactly if the port is known and the field holds its number; with no constant only "!=" holds |
| `Comparisons.BareSays` | lib/expr.c:1113-1146 | a field by itself says that it is not 0, and is accepted exactly in the polarity its level allows |
| `ParsedPhrases.ListParses` | lib/expr.c:719-870 | every list of known constants of one type, with or without commas, address sets and port groups included, is read as exactly its constants |
| `ParsedPhrases.ListRead` | lib/expr.c:719-870 | and nothing else is read |
| `ParsedPhrases.FieldParses` | lib/expr.c:638-702 | a field, one bit or a range of bits inside it is read as exactly those bits |
| `ParsedPhrases.FieldRead` | lib/expr.c:638-702 | and nothing else is read |
| `MatchLanguage.ParsedMeans` | lib/expr.c:1083-1271 | every accepted match is parsed, and to an expression that is true of a packet exactly if what is written is: comparisons with the constant behind or in front, ranges, single fields, "!", parentheses, and chains of "and" or of "or" |
| `MatchLanguage.ParsedIff` | lib/expr.c:1083-1318 | a text is parsed if and only if it is that of an accepted match |
| `MatchLanguage.Unambiguous` | lib/expr.c:1240-1271 | however a text can be read, it says the same |
| `ParseResults.GoodNot` | lib/expr.c:215-244 | negating flips the polarity of every comparison and keeps the structure |
| `ParseResults.MakeCmpGood` | lib/expr.c:559-636 | what make_cmp() accepts compares strings and nominal symbols in the polarity that "!" calls for, merges nested nodes, and keeps values inside masks and masks inside fields |
| `ParseResults.ParsedIsRaw` | lib/expr.c:1083-1271 | however "!" and parentheses nest, strings and nominal symbols end up compared with == and nominal predicates asked to hold; the result is well formed if and only if its relational comparisons have contiguous masks |
| `ParseMasks.MakeCmpMasks` | lib/expr.c:568-597 | the comparisons that make_cmp() builds for "<" and the like have contiguous masks if and only if those of all the constants are contiguous in the field |
| `ParseMasks.WellFormedIff` | lib/expr.c:559-1271 | a parsed match is well formed if and only if every address set that stands next to "<", "<=", ">" or ">=" in its tokens has masks that are contiguous in the field on the other side |
| `MatchText.MaskedSetComparison` | lib/expr.c:589-597 | "<" with an address set whose second constant has a mask is accepted, and is well formed if and only if that mask is contiguous in the field |
| `MatchText.TextToFlows` | controller/lflow.c:262-305 | for every match that the parser accepts: it is well formed if and only if address sets next to "<" and the like have contiguous masks, and then its flows accept a packet exactly when it is true of the packet |
| `Formatting.CanonMeaning` | lib/expr.c:343-357 | reading a printed one-bit comparison back as a comparison with 0 changes the meaning nowhere, prerequisites and predicates included, and keeps the expression well formed |
| `Formatting.CanonShape` | lib/expr.c:343-357 | it keeps every AND and OR node, and every comparison's symbol and mask |
| `RoundTrip.CmpBack` | lib/expr.c:329-382 | a printed comparison is read back if and only if it is printable, whatever follows it |
| `RoundTrip.FormatThenParse` | lib/expr.c:422-446 | printing and then parsing gives back the expression (bit tests in canonical form) if and only if it is printable; otherwise parsing fails |
| `MatchText.PrintedMeansTheSame` | lib/expr.c:418-446 | printing and then parsing succeeds if and only if the expression is printable, and then gives the same tree with the same value, and the same naive meaning if the expression is well formed |
| `MatchText.PartialMaskNotReadBack` | lib/expr.c:418-446 | a nominal field compared under a mask of some adjacent bits is accepted by the parser, but cannot be read back once printed |
| `MatchText.EthTypeMatch` | lib/logical-fields.c:137-137 | "eth.type == 0x800/0xff00" is one of those matches |
| `ExtendTables.AssignId` | lib/extend-table.c:127-174 | a wanted or installed name keeps its id, another gets one that nobody has, and none is left only if all are in use |
| `ExtendTables.AssignCorrect` | lib/extend-table.c:127-174 | assigning keeps the bitmap exact, ids and names one-to-one, and all other entries |
| `ExtendTables.ClearDesiredValid` | lib/extend-table.c:75-91 | dropping the wanted entries leaves none of them, and keeps the table valid and the installed entries |
| `ExtendTables.ClearExistingValid` | lib/extend-table.c:75-91 | dropping the installed entries keeps the table valid if and only if none of them is wanted |
| `ExtendTables.LookupByName` | lib/extend-table.c:59-72 | looking up by id finds the entry of the same name or nothing |
| `ExtendTables.SettleValid` | lib/extend-table.c:93-123 | after a put the table is valid, with exactly the wanted entries installed |
| `ExtendTables.PruneThenMerge` | lib/extend-table.c:93-123 | removing unwanted entries and then moving the wanted ones installs exactly the wanted ones and frees exactly the other ids |
| `ExtendTableImpl.ExtendTable.AssignId` | lib/extend-table.c:127-174 | updates bitmap and map as Assign() says |
| `ExtendTableImpl.ExtendTable.ClearDesired` | lib/extend-table.c:75-91 | the loop leaves the table as ClearDesired() says |
| `ExtendTableImpl.ExtendTable.ClearExisting` | lib/extend-table.c:75-91 | the loop leaves the table as ClearExisting() says |
| `ExtendTableImpl.ExtendTable.Remove` | lib/extend-table.c:93-104 | removes one installed entry and frees its id |
| `ExtendTableImpl.ExtendTable.Move` | lib/extend-table.c:106-123 | the loop moves over the wanted entries whose id is not installed |
| `ExtendTableImpl.ExtendTable.Uninstalled` | lib/extend-table.h:62-67 | the walk finds exactly the wanted entries that are not installed, once each |
| `ExtendTableImpl.ExtendTable.RemoveUnwanted` | lib/extend-table.h:69-74 | the walk removes exactly the installed entries that are not wanted and returns their ids, once each |
| `ExtendTableImpl.ExtendTable.Settle` | controller/ofctrl.c:1061-1104 | removing and moving together leave the table as Settle() says |
| `OpenFlow.DiffApplies` | controller/ofctrl.c:990-1059 | one ADD, MODIFY_STRICT or DELETE_STRICT for each key that differs, in any order, turns the installed table into the wanted one |
| `OpenFlow.DiffEmpty` | controller/ofctrl.c:990-1059 | no commands exactly if the tables agree |
| `OfctrlImpl.Ofctrl.RunState` | controller/ofctrl.c:181-190 | the run_S_*() functions change the fields and queue the messages as RunState() says |
| `OfctrlImpl.Ofctrl.ClearFlows` | controller/ofctrl.c:373-425 | run_S_CLEAR_FLOWS() clears the tables and updates, in place and with loops, as RunState() says |
| `OfctrlImpl.Ofctrl.RecvRequested` | controller/ofctrl.c:277-308 | recv_S_TLV_TABLE_REQUESTED() as RecvRequested() says, which gets the negotiation on: `Negotiation.GetsToUpdate`, `Negotiation.FreeSlotTaken` |
| `OfctrlImpl.Ofctrl.RecvModSent` | controller/ofctrl.c:333-366 | recv_S_TLV_TABLE_MOD_SENT() as RecvModSent() says, which gets the negotiation on: `Negotiation.GetsToUpdate`, `Negotiation.RaceStartsOver` |
| `OfctrlImpl.Ofctrl.RecvUpdate` | controller/ofctrl.c:450-478 | recv_S_UPDATE_FLOWS() with its loop over zone entries as RecvUpdate() says |
| `OfctrlImpl.Ofctrl.Run` | controller/ofctrl.c:484-563 | the loop of at most 50 turns, on a new connection or not, as Turns() says; where it stops is `Negotiation.TurnsSettle` |
| `OfctrlImpl.Ofctrl.InstallFlows` | controller/ofctrl.c:990-1059 | the two walks emit one justified command for each key that differs, make the installed flows equal to the wanted ones and empty the wanted table |
| `OfctrlImpl.Ofctrl.TrackUpdate` | controller/ofctrl.c:1126-1161 | the backward loop with its early exits leaves the updates as Track() says |
| `OfctrlImpl.Ofctrl.PutBatch` | controller/ofctrl.c:939-1104 | the walks over zones, groups, meters and flows yield a complete batch and settle all tables |
| `OfctrlImpl.Ofctrl.Put` | controller/ofctrl.c:929-1171 | ofctrl_put() queues a complete batch and changes the state as Put() says, or forgets what is wanted if it may not send; what gets reported for it is `PutReports.PutIsReported`, and in which order the switch changes `PutOrder.PutInOrder` |
| `SwitchSync.InvAlways` | controller/ovn-controller.c:740-819 | in every state of every run, for any interleaving of turns, puts, answers and reconnections, the whole invariant holds |
| `SwitchSync.IdsKept` | lib/extend-table.c:74-174 | every step keeps both id tables valid, and nothing is wanted outside of a build |
| `SwitchSync.NetKept` | controller/ofctrl.c:1106-1115 | every step keeps barrier ids unique and only processed barriers answered |
| `SwitchSync.SyncKept` | controller/ofctrl.c:373-425 | every step keeps what was sent in agreement with the installed flows, groups and meters |
| `SwitchSync.SyncFlows` | controller/ofctrl.c:990-1059 | the messages of a put make the switch's flow table the wanted one |
| `SwitchSync.SyncEntries` | controller/ofctrl.c:954-988 | the messages of a put make the switch's groups or meters the wanted ones |
| `SwitchSync.NotAddedAndDeleted` | controller/ofctrl.c:954-1104 | no id is both added and deleted by one put |
| `SwitchSync.UpdatesKept` | controller/ofctrl.c:1106-1171 | every step keeps each update in flight tied to a barrier behind the table that it stands for |
| `SwitchSync.ZonesKept` | controller/ofctrl.c:1117-1125 | every step keeps each sent flush in front of its barrier on the same connection, as parts of one put |
| `SwitchGuarantees.QueueLeadsToInstalled` | controller/ofctrl.c:484-563 | in every run, while flows are updated, the queued messages turn the switch's table into the installed one |
| `SwitchGuarantees.OnlyTheseReport` | controller/ofctrl.c:450-478 | the reported configuration number changes only on a barrier's answer or in a put that finds nothing to send and nothing in flight |
| `SwitchGuarantees.AnswerReports` | controller/ofctrl.c:450-478 | when a barrier's answer changes the reported number, the switch has processed a prefix that left its table as some put with that number wanted it |
| `SwitchGuarantees.NoModAlways` | controller/ofctrl.c:373-425 | in every run, no flow is modified on a connection before a put that sends a barrier |
| `SwitchGuarantees.ReportAtOnceRight` | controller/ofctrl.c:1167-1171 | a put that reports at once is right about the switch's table if and only if a put has sent a barrier since the clearing, or the switch has processed the clearing, or it had no flows when the connection was made |
| `SwitchGuarantees.EveryReport` | controller/ofctrl.c:1106-1171 | in every run, each report is backed by what the switch has processed, but for a put of an empty table that reports at once when none of these three is so |
| `SwitchGuarantees.BackedUnlessEmpty` | controller/ofctrl.c:1106-1171 | in every run without a put of an empty table, each report is backed by what the switch has processed |
| `SwitchGuarantees.ReportTooEarly` | controller/ofctrl.c:1167-1171 | a run in which such a put reports its number while the switch still holds all of its old flows |
| `SwitchGuarantees.ReportsNeverGoBack` | controller/ofctrl.c:417-478 | if the numbers given to puts never decrease, the updates in flight are strictly increasing and the reported number never goes back |
| `SwitchGuarantees.HandOver` | controller/ofctrl.c:465-474 | an added zone is handed over to the database only on the answer to a barrier behind a flush of the zone by the same put, both processed on this connection |
| `SwitchGuarantees.HandedOverIsFlushed` | controller/ofctrl.c:499-511 | in every run, every added zone that has been handed over was flushed, by the put whose barrier its entry carries, and confirmed before, on one connection |
| `FlushAnswers.UpdateInFlight` | controller/ofctrl.c:452-478 | in every run, as long as the answer to a put's barrier is to come, an update is in flight, so that the answer will not be ignored |
| `FlushAnswers.NotStranded` | controller/ofctrl.c:452-478 | in every run, the answer to the barrier behind a flush that was sent is still to come |
| `FlushAnswers.AnswerHandsOver` | controller/ofctrl.c:465-474 | in every run, that answer hands the zone over to the database |
| `PutReports.LastIsLatestAlways` | controller/ofctrl.c:1106-1171 | in every run, while updates are in flight, the last one carries the number of the last put, whether or not that put sent anything |
| `PutReports.PutIsReported` | controller/ofctrl.c:450-478 | in every run in which flows go on being updated after a put: once the switch has processed everything and every answer was received, the number of the last put or a later one is reported, and exactly that number if the numbers never decrease |
| `PutReports.TrackExact` | controller/ofctrl.c:1126-1161 | of the updates in flight, a put with messages keeps exactly those with a smaller number, in order, and adds its own |
| `PutReports.TurnsNeverGoBack` | controller/ofctrl.c:450-478 | no turn takes back a number that was reported |
| `PutOrder.PutInOrder` | controller/ofctrl.c:939-1104 | in every run, however far the switch gets with a put's messages: flows have not changed unless every wanted group and meter is there and every zone was flushed, and what was installed stays until all flows have changed |
| `PutOrder.BacklogRefuses` | controller/ofctrl.c:905-937 | while messages are queued, a put leaves the switch alone and forgets everything wanted |
| `Negotiation.AwaitsAlways` | controller/ofctrl.c:181-366 | in every run in which requests are answered: whatever the negotiation waits for is still to come |
| `Negotiation.ClearedAlways` | controller/ofctrl.c:373-425 | in every run, flows are updated only after all flows, groups and meters were deleted on the connection |
| `Negotiation.NextTurn` | controller/ofctrl.c:181-425 | once everything is processed, answered and received, the next turn sends a request, or gets to where puts may be sent with the tables cleared |
| `Negotiation.GetsToUpdate` | controller/ofctrl.c:181-425 | in every run in which requests are answered and no other controller was faster, it is the latter as soon as anything was sent on the connection |
| `Negotiation.FreeSlotTaken` | controller/ofctrl.c:221-308 | a free slot leads to a request to use it, with a barrier behind it |
| `Negotiation.RaceStartsOver` | controller/ofctrl.c:333-366 | an error that tells of a race makes the next turn send the request again |
| `Negotiation.EchoAnswered` | controller/ofctrl.c:608-622 | an echo request is answered in the turn that receives it, unless it carries an id that is awaited |
| `Negotiation.TurnsSettle` | controller/ofctrl.c:514-563 | ofctrl_run() receives all there is, up to its limit of turns, and with turns left does not stop where it has something to send |
| `SwitchGuarantees.IdsAlways` | controller/ofctrl.c:400-415 | in every run the id tables are valid, and nothing is wanted whenever the state machine may clear what is installed |
| `SwitchGuarantees.StampedAlways` | controller/ofctrl.c:943-952 | in every run, no flush that was sent lacks a barrier |
| `SwitchGuarantees.TurnsAreSteps` | controller/ofctrl.c:514-563 | the turns that ofctrl_run() takes are steps of the system |
| `SwitchGuarantees.TurnsGoOn` | controller/ofctrl.c:514-563 | so any run goes on with them |
| `CtZones.ZoneTable.DropZones` | controller/ovn-controller.c:372-388 | zones of gone users are freed and recorded; nothing else changes |
| `CtZones.ZoneTable.AssignZone` | controller/ovn-controller.c:397-421 | the lowest free zone from the scan position on, marked, given to the user, and recorded with an entry to flush it; none only if there is none from there on |
| `CtZones.AddStep` | controller/ovn-controller.c:397-407 | the moving scan position never skips a free zone |
| `CtZones.ZoneTable.CollectUsers` | controller/ovn-controller.c:351-369 | the loops over ports and datapaths yield AllUsers() |
| `CtZones.AllUsersIff` | controller/ovn-controller.c:356-369 | exactly the local ports and two NAT users for each local datapath need a zone |
| `CtZones.ZoneTable.Update` | controller/ovn-controller.c:347-425 | map and bitmap stay in agreement with distinct zones in 1..65535, survivors keep their zones, exactly the current users are served unless every zone is in use, and one entry is recorded for each user that got or lost a zone: the new zone to be flushed, or the old one to be taken out of the database |
| `ZoneEntries.UpdateGoesOn` | controller/ovn-controller.c:347-425 | what it records are steps of the system, so any run of it goes on with them, and the guarantees about flushing hold for these zones |
| `ZoneEntries.StoredIsForgotten` | controller/ovn-controller.c:427-467 | once the database has stored what was handed over, exactly that is forgotten |
| `HaChassis.GetOrdered` | controller/ha-chassis.c:62-134 | the filtering loop, the reference check and the sort yield Ordered() |
| `HaChassis.OrderedList` | controller/ha-chassis.c:62-134 | the list has exactly the members that count, each before the ones that it precedes |
| `HaChassis.OrderedIff` | controller/ha-chassis.c:62-134 | there is a list if and only if a member counts, and if only one does, tunnels do not matter or lead to a chassis that refers to the group |
| `HaChassis.ActiveIff` | controller/ha-chassis.c:148-178 | a chassis is active for a group if and only if it is a member, and the only one or has a tunnel up, precedes every member it sees, and sees another member or a referring chassis; for every group, also a missing or empty one |
| `HaChassis.NeverBothActive` | controller/ha-chassis.c:148-178 | two chassis that see each other are never both active |
| `HaChassis.ActiveIsTop` | controller/ha-chassis.c:25-35 | among live members that see each other, the active ones are those with the highest priority, then the greatest name |
| `HaChassis.ExactlyOneActive` | controller/ha-chassis.c:148-178 | of the live members that see each other exactly one is active, if there are several, or if the only one is all of the group or sees a referring chassis |
| `StackArgs.EncodeSetup` | lib/actions.c:125-152 | the three loops emit saves, sources in reverse, and loads |
| `StackArgs.EncodeRestore` | lib/actions.c:154-163 | the loop emits the restores in reverse |
| `StackArgs.SetupAssigns` | lib/actions.c:125-152 | the emitted actions assign all arguments at once, whatever overlaps among sources and destinations, change no other bit, and leave the old destinations on the stack |
| `StackArgs.RestoreUndoes` | lib/actions.c:1404-1420 | after any body that keeps the stack, restoring gives every saved destination its entry value, keeps all other bits, and leaves the stack as it was |
| `LocalDatapaths.PeersIff` | controller/binding.c:140-171 | the peers of a datapath are exactly the datapaths that a patch port of it and its peer port lead to |
| `LocalDatapaths.DiscoverAdds` | controller/binding.c:112-171 | the recursion terminates on any topology; new datapaths can be reached from the requested one, and their peers are all local and recorded if and only if the depth limit cut nothing off |
| `LocalDatapaths.ExactAfter` | controller/binding.c:173-187 | one more request keeps the local set equal to what patch peers reach from all requested datapaths, with their peers and gateway flags |
| `LocalDatapaths.NeverRepaired` | controller/binding.c:121-128 | once some peers were not recorded, no later request makes the outcome exact |
| `DepthLimit.LocalIsWithin` | controller/binding.c:136-140 | every local datapath is within 100 hops of a requested one |
| `DepthLimit.FarIsMissing` | controller/binding.c:136-140 | a datapath that can be reached, but from no requested one within 100 hops, is missing from the local set |
| `DepthLimit.FarIsLost` | controller/binding.c:136-140 | a datapath with peers that is not within 99 hops of a requested one does not have them recorded |
| `DepthLimit.MissingIsDeep` | controller/binding.c:136-140 | if the local set is not the documented one, a path of 101 hops without repetition leads from a requested datapath to a missing one |
| `WalkOrder.TrailIsFirst` | controller/binding.c:145-169 | the walk gets to each datapath by the first path without repetition, in the order of the ports |
| `WalkOrder.ExactIffFirstPaths` | controller/binding.c:112-187 | after any sequence of requests, on any topology, local set, peers and gateway flags are exact if and only if the first path to every datapath with peers, from the first request that reaches it, has at most 100 datapaths |
| `WalkOrder.LostIsDeep` | controller/binding.c:136-140 | if the outcome is not exact, a path of 101 datapaths without repetition leads from a requested one to one with peers |
| `Topologies.TreeLocalIff` | controller/binding.c:136-140 | without cycles, the local set for a request is the documented one if and only if everything that can be reached is within 100 hops |
| `Topologies.TreeExactIff` | controller/binding.c:136-140 | without cycles, all peers are recorded as well if and only if every datapath with peers that can be reached is within 99 hops |
| `Topologies.ChainLocalIff` | controller/binding.c:136-140 | for the first datapath of a chain, the local set is the documented one if and only if the chain has at most 101 datapaths |
| `Topologies.ChainExactIff` | controller/binding.c:136-140 | and all peers are recorded as well if and only if it has at most 100 |
| `Topologies.BothEndsIff` | controller/binding.c:136-140 | requests for both ends of a chain, in any order, give the documented local set if and only if the chain has at most 202 datapaths |
| `LocalDatapaths.Discovery.AddFrom` | controller/binding.c:112-171 | the recursive method changes the local datapaths as Discover() says |
| `LocalDatapaths.Discovery.FollowPort` | controller/binding.c:145-169 | the loop body follows a patch port to its peer and records it, as one more round of Follow() |
| `LocalDatapaths.Discovery.AddAll` | controller/binding.c:173-187 | any sequence of requests leaves the local datapaths as DiscoverAll() says |

## Left out

- lexing of characters, and number, IP and MAC formatting: parsing and printing start and end at tokens.
- `expr_annotate()` in the form of loops that rewrite nodes: modelled on values, so that update in place is not captured.
- `crush_and_string()` in the form of loops: modelled on values; the order of the names in its result is not captured.
- `list` and tree pointers, `malloc()` and `free()`: expressions are values, so that sharing and ownership are not captured.
- conjunction id 0, which an offset that wraps around can lead to: it is taken for an id like any other. A single match has fewer than 2^32 conjunctions.
- clause numbers beyond 255, which the source keeps in 8 bits: clauses are numbered without a limit.
- union of the flows of several logical flows: `ofctrl_check_and_add_flow()` drops later flows with equal keys, so acceptance is stated per logical flow.
- the prerequisites that a logical flow's actions add to its match (`controller/lflow.c:265-268`); the match on the logical datapath; and the omission of flows for ports that are not local (`controller/lflow.c:330-348`).
- cookies, which a MODIFY_STRICT does not update; errors in the text of groups and meters; the Geneve field id.
- refusal of a message by the switch, and 32-bit wrap-around of transaction ids.
- `commit_ct_zones()` and the removal of stored entries in the form of loops, and the database contents they write: only the states of the entries are modelled, as steps in `SwitchSync`.
- `restore_ct_zones()`: the agreement of zone map and bitmap is what `CtZones.ZoneTable.Update` starts from.
- localnet ports of local datapaths.
- the rest of the repository: OVSDB access, packet construction, physical flows, tunnels, BFD, the other actions, and the utilities. It would mostly add translations that restate themselves.
