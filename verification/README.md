# The Kconfig engine and the whitespace cleaner, modelled in Dafny

This project models two parts of the repository and proves what they are for.

**The Kconfig engine** (`scripts/config`) decides which options of a configuration are visible, what value each one
has, how the answers are written to a file and read back, and how the menu is arranged. Values are the three
tristates n < m < y, with AND as minimum, OR as maximum and NOT as 2 - x.

**The whitespace cleaner** (`scripts/cleanpatch`, the same functions are in `scripts/cleanfile`) replaces runs of
spaces before tabs by tabs, without moving anything.

`dafny verify dfyconfig.toml` checks the whole project.

## How it is organised

| files | what they model |
|---|---|
| Exprs | tristates, symbols, expressions, assignments and what makes an assignment well-formed |
| Simplify, Equality, Spine, Rearrange, Dups, EliminateDups, Reduced | the expression simplifier of expr.c, and which expressions it recognises as equal, implied or shared |
| Print | printing expressions, with a parser as the inverse |
| Configuration, Active | the value of every symbol by definition, nothing cached; what that comes to on the list of its properties |
| Evaluator, Changes, TextChanges | the evaluator that caches values in the symbols, and changes of user values |
| Graphs, Cycles | the search for recursive dependencies, and which configurations can be evaluated at all |
| Choices | choice groups |
| SymbolTable | the hash table of symbols |
| Nesting, MenuTree, Forests, Arrangement, FinishedMenu, MenuFinalize | arranging the menu: what is nested, the finished tree as a function of the original one and what it looks like, the relinking itself; and the walk over it |
| Defconfig, Writer | the minimal and the full configuration, as lists of lines |
| Sessions | whole sessions of looking at symbols, setting them and saving |
| Escaping, ConfigFile, LineReader, SaveAndLoad | the text of a configuration file and reading it back |
| Whitespace, Patches | the whitespace cleaner and its hunk loop |

Code that works by recursion over expressions is modelled by functions; where it rewrites nodes in place, the function
returns what is left behind the pointer. `expr_eliminate_dups1` and `expr_eliminate_dups2` receive two pointers into
one and the same tree; these are paths (module Spine), so every rewrite through one of them is seen through the other.
Code that updates fields, walks linked entries or fills buffers is modelled by classes and loops: the evaluator with
its flags, the search with its stack, the choice group, the hash chains, the menu links, the line buffer and the
string buffers.

A *well-formed assignment* (`Exprs.Assignment.WellFormed`) gives the constants their own values and distinct texts,
never gives m to a boolean symbol, and gives m to no declared symbol while MODULES is n. `ComputedIsWellFormed` proves
that every computed configuration is one, so the simplifier's theorems apply wherever it is used.

## What was found

Where the code does not do what its comments or the rest of the code suggest, the code is kept and the exact condition
is proved.

- **Duplicate elimination can lose the value m.** The rule `(FOO || BAR) && (!FOO && !BAR) -> n` (expr.c:574-604) is a
  law of two values. `KeptValues`: a value is kept for all expressions and assignments exactly when it is not m;
  `SimplifiedExact`: m is kept too wherever that rule finds nothing. `MiddleValueLost` is an expression that loses it.
- **Whether two expressions are recognised as equal can depend on the order of their operands** (expr.c:189-229), but
  only with constants among these. `EqualExactly`: without them, expr_eq recognises exactly the expressions that differ in
  the order and grouping of operands. `SameOperandsEqual`: chains with the same operands in the same order are recognised
  always, however they are grouped. `OrderMatters` is a chain with constants inside its operands that is not recognised
  once two of them are exchanged.
- **Comparing with n or y through a NOT** (expr.c:908-909) is exact exactly when the negated operand is not m
  (`TransCompareNegation`). For that reason an entry can be nested below one that it does not depend on:
  `NestedWithoutReason` is such an entry.
- **Storing the value a symbol already has can leave a stale cache** (symbol.c:493-527). A default may lie above the
  visibility; stored as a user value it is cut down, but nothing is invalidated. `StoredAgain` and `SetTristateValue`
  give the exact condition (`Storable`), `DefaultAboveVisibility` a configuration.
- **Then a save can print values that the user values do not give** (confdata.c:784-785). With changes pending,
  conf_write uses values and flags as it finds them. `EverySave`: in any session, a save prints the complete
  configuration of the user values exactly if nothing is pending or no symbol was stored, since everything was last
  cleared, with a value that it had but would not keep; `SavesAreRight` says so for all saves together. The programs get
  there: conf.c:222 and conf.c:228 store the current value when the question is confirmed, mconf.c:719 on a key.
  `WrongSave` is a session of two actions whose save prints y for a symbol that is now m.
- **A text is accepted whether its symbol shows or not** (symbol.c:595-625, 637-683). `TextTakesEffect`: it takes effect
  exactly if the symbol shows or has the text already.
- **The minimal configuration loses a tristate value that is selected up to its visibility** (confdata.c:680-718).
  `FileIsLossless`: it keeps every value exactly when no symbol is `Pinned` and every number lies within its range. A
  boolean or tristate symbol is `Pinned` if the user has set it, it shows and is selected up to m and has the default
  y (or if it is taken from the environment and the user has given it another value than it has by itself);
  `PinnedExactly` proves that these are the values without a line that matter. A configuration with boolean symbols
  only never loses one (`BooleanFile`). `TristateLost` is a configuration in which m becomes y.
- **A line of the minimal configuration can be redundant** (confdata.c:712-718 with symbol.c:693-758): the default it is
  compared with is not put into the range. `LineMatters`: a line is redundant exactly if its value is the default put
  into its range, which happens to no boolean or tristate symbol. `RedundantLine` is a number with such a line.
- **conf_write trusts the write flags it finds when something has changed** (confdata.c:784-785). `WriteConfig`: it prints
  every writable symbol exactly if nothing has changed or the flags found are those computed. Setting a new value clears
  everything, so that is so in every session (`Session`). Only conf_write_defconfig leaves changes behind with flags
  cleared; `DefconfigThenConfig` shows the empty file that conf_write would then produce, although no caller does both
  (conf.c:677 and conf.c:683 are exclusive).
- **A recursive dependency never raises the error count** (zconf.y:522-525): the outermost call of `sym_check_deps`
  always returns NULL, so a cycle is only ever reported (`CheckAll`).
- **The search does not look at the bounds of ranges** (symbol.c:1203-1204), which evaluation needs (symbol.c:155-187).
  `RankedExactly`: a configuration can be evaluated in some order exactly if no symbol needs itself, be it through a
  direct dependency or a bound. `RangesNotSearched` is a configuration without a report that cannot.
  `PlainlySearched`: where no symbol has such bounds, or direct dependencies beyond what is searched, a cycle is found
  exactly if there is no order.
- **Evaluating a choice can change its next value** (symbol.c:274-278): its user flag is dropped when a member shows
  that the user has not seen. `DroppedChoice` says when the next evaluation differs; in `ChoiceLost` the choice goes
  from y to n.
- **A name can have two symbols that are not constants** (zconf.y:245, symbol.c:816-818). `Run`: exactly if it is asked
  for both as a choice and as a plain symbol; `SharedByTwo` is the smallest case.
- **Carriage returns move text in the whitespace cleaner**: `clean_space_tabs` goes back to column 0 at one,
  `strwidth` does not. `CleanKeepsColumns` gives the exact condition under which every column is kept;
  `ReturnsMoveWidth` is a string whose width changes.
- **The cleaner writes a file back only if its length changed** (cleanpatch:244-255). `CleanedInVain`: a changed file is
  not written exactly if no header and no line loses a character and yet some added line has a space before a tab;
  `InVain` is a patch of one such line.
- **A hunk header that announces no lines disappears** when a patch is cleaned (cleanpatch:147-150), and cleaning can
  produce one: from the hunks that only add blank lines, and from no other (`CleanedIsPatch`, `VanishingHunk`);
  `HunkVanishes` is one.
- The comment at expr.c:484 says `'m'` where the code, correctly, gives `'y'`.

## Model

| member | source | states |
|---|---|---|
| Exprs.TwoValuedExpr | scripts/config/expr.c:938-977 | an expression without the constant m over two-valued symbols never has the value m |
| Simplify.EliminateYnValue | scripts/config/expr.c:231-312 | removing constant operands keeps the value in every well-formed assignment |
| Simplify.EliminateYnShrinks | scripts/config/expr.c:231-312 | an expression with a constant operand gets strictly smaller, which is why duplicate elimination ends |
| Simplify.EliminateYnComplete | scripts/config/expr.c:231-312 | no AND or OR has a constant operand afterwards |
| Simplify.EliminatePairs | scripts/config/expr.c:130-162 | cancellation never enlarges either side; the measure that makes the mutual recursion with expr_eq end |
| Simplify.EliminatePairsSplits | scripts/config/expr.c:130-162 | both sides are the same common part joined with their remainders |
| Simplify.EliminateEqReflectsOrder | scripts/config/expr.c:164-184 | whenever the remainders are ordered, the originals are ordered the same way |
| Simplify.EliminateEqImplies | scripts/config/expr.c:164-184 | if the second side is reduced to y, the first expression is at most the second in every well-formed assignment |
| Simplify.ExprEqSound | scripts/config/expr.c:189-229 | expressions called equal have one value in every well-formed assignment |
| Simplify.ExtractEqValue | scripts/config/expr.c:848-875 | collecting the common operands keeps the value of each side together with what was collected |
| Simplify.ExtractCommonSplits | scripts/config/expr.c:826-875 | each side is exactly the common operands joined with its remainder |
| Simplify.Transform | scripts/config/expr.c:636-771 | the result is a negation normal form and not heavier than the input, where each NOT doubles the weight |
| Simplify.TransformValue | scripts/config/expr.c:636-771 | normalising keeps the value in every well-formed assignment |
| Simplify.TransformFixpoints | scripts/config/expr.c:636-771 | the expressions left alone are exactly the normal forms, so a second application changes nothing |
| Simplify.TransBoolValue | scripts/config/expr.c:317-341 | on a normal form, dropping != n never raises the value and never changes whether it is n |
| Simplify.TransBoolFixpoints | scripts/config/expr.c:317-341 | no tristate symbol is compared with n by != afterwards, and only expressions with such a comparison change |
| Equality.PartCancels | scripts/config/expr.c:130-162 | a part of a chain, cancelled against a copy of the chain, removes exactly its own operands there |
| Equality.ExprEqReflexive | scripts/config/expr.c:189-229 | every expression is recognised in its copy |
| Rearrange.EqualExactly | scripts/config/expr.c:189-229 | without constants among the operands, the expressions recognised as equal are exactly those that differ in the order and grouping of operands only |
| Rearrange.SameOperandsEqual | scripts/config/expr.c:189-229 | whatever the operands are, chains of the same operands in the same order are recognised as equal, however they are grouped |
| Rearrange.OrderMatters | scripts/config/expr.c:189-229 | with constants inside the operands, two chains with their operands exchanged that are not recognised |
| Rearrange.ImpliedExactly | scripts/config/expr.c:164-184 | without constants among the operands, the second side is reduced to y exactly if it is y, or the first is an AND with all operands of the second among its own |
| Rearrange.ExtractedExactly | scripts/config/expr.c:826-875 | without constants among the operands, exactly the operands that the two sides do not share are left |
| Spine.SpineValue | scripts/config/expr.c:504-554 | replacing one operand of a chain changes the value only through that operand |
| Dups.JoinValue | scripts/config/expr.c:346-502 | two operands that are joined have together the value of the join, in every well-formed assignment |
| Dups.JoinShape | scripts/config/expr.c:346-502 | a join is smaller than the two operands and keeps normal forms normal |
| Reduced.JoinSymmetric | scripts/config/expr.c:346-502 | two plain operands are joined to the same, or not at all, in either order |
| Reduced.ComparisonsJoin | scripts/config/expr.c:346-502 | which two comparisons of a tristate symbol with y, m or n join by OR and by AND, and to what |
| Reduced.ConstantsJoin | scripts/config/expr.c:452-468 | an equality and an inequality of one tristate symbol with any constants always join by AND |
| Reduced.SymbolJoins | scripts/config/expr.c:411-502 | a symbol joins a comparison of itself by AND exactly if that excludes n or only m, and by OR never |
| Reduced.NegationJoins | scripts/config/expr.c:346-502 | a symbol and its negation join by OR exactly if the symbol is boolean, to y, and never by AND |
| Reduced.OthersDoNotJoin | scripts/config/expr.c:346-502 | plain operands about different symbols never join |
| Dups.Dups1 | scripts/config/expr.c:504-554 | a pass either changes nothing or counts a rewrite and leaves a constant operand for the next round to remove |
| Dups.Dups1Value | scripts/config/expr.c:504-554 | joining operands through two pointers into one tree keeps the value in every well-formed assignment |
| Dups.OpposedValue | scripts/config/expr.c:574-604 | what the contradiction test finds: the other place already covers the negation of the operand |
| Dups.Dups2 | scripts/config/expr.c:556-610 | the same progress statement for the contradiction pass |
| Dups.Dups2Value | scripts/config/expr.c:556-610 | removing contradictions and tautologies keeps y and n in every well-formed assignment |
| EliminateDups.Round | scripts/config/expr.c:619-628 | one round never enlarges the tree, and a counted rewrite leaves a constant operand |
| EliminateDups.SimplifiedValue | scripts/config/expr.c:612-634 | duplicate elimination keeps the values y and n of every expression in every well-formed assignment |
| EliminateDups.SimplifiedTwoValued | scripts/config/expr.c:612-634 | without the constant m nothing changes in two-valued assignments |
| EliminateDups.SimplifiedExact | scripts/config/expr.c:612-634 | wherever no contradiction or tautology is removed, all three values are kept in every well-formed assignment |
| EliminateDups.SimplifiedIdempotent | scripts/config/expr.c:612-634 | a second call returns its argument |
| EliminateDups.MiddleValueLost | scripts/config/expr.c:574-604 | an expression that is m before and n after |
| EliminateDups.KeptValues | scripts/config/expr.c:574-634 | a value is kept for all expressions and well-formed assignments exactly when it is not m |
| EliminateDups.Simplifier.EliminateDups | scripts/config/expr.c:612-634 | the loop computes the simplified expression and restores the global rewrite counter |
| Reduced.Dups1Stuck | scripts/config/expr.c:504-554 | a pass that counts nothing has compared every pair of operands, at every depth, and found no join |
| Reduced.Dups2Stuck | scripts/config/expr.c:556-610 | a pass that counts nothing has compared every operand with every place of the chain and found no contradiction |
| Reduced.SimplifiedIsReduced | scripts/config/expr.c:612-634 | in the result no two operands of a chain can be joined and none contradicts another place, at any depth |
| Reduced.NoRepeatedOperand | scripts/config/expr.c:612-634 | no operand occurs twice in the resulting chain, however its own operands are grouped, nor in another order unless constants are left among them |
| Reduced.NoRearrangedOperand | scripts/config/expr.c:612-634 | simplifying a normal form without constants leaves no operand that is another one rearranged at any depth |
| Reduced.OpposedExactly | scripts/config/expr.c:574-604 | without constants among the operands, the contradiction test succeeds exactly if all operands of the negated place are operands of the other one |
| Reduced.NoContradictionLeft | scripts/config/expr.c:612-634 | in the result no AND or OR inside a chain has the operands of its negation among those of another place |
| Print.PrintedAlike | scripts/config/expr.c:1053-1123 | two expressions print the same tokens exactly when they group their operands alike; proved by reading the tokens back |
| Print.PrintUnambiguous | scripts/config/expr.c:979-1123 | what prints alike has one value in every assignment, so the parenthesis rule suffices |
| Print.ReadExpr | scripts/config/expr.c:1053-1123 | a parser reads the printed tokens back as the expression, up to grouping of a chain |
| Print.CanonicalValue | scripts/config/expr.c:938-977 | regrouping a chain keeps its value |
| Configuration.StepLocal | scripts/config/symbol.c:293-440 | the value of a symbol depends only on the symbols its properties mention and on MODULES |
| Configuration.CalcIsSolution | scripts/config/symbol.c:293-440 | in an acyclic configuration the values satisfy the defining equation of every symbol at once |
| Configuration.SolutionUnique | scripts/config/symbol.c:293-440 | no other values do |
| Configuration.ComputedIsWellFormed | scripts/config/symbol.c:293-440 | every computed configuration is a well-formed assignment |
| Active.ShowsExactly | scripts/config/symbol.c:189-227 | a symbol shows as far as the most visible of its prompts, and fully instead of up to m if it cannot be m |
| Active.DependenciesExactly | scripts/config/symbol.c:206-227 | a direct dependency counts as y unless its condition is n, a select as its condition, with y instead of m where the symbol cannot be m |
| Active.DefaultCounts | scripts/config/symbol.c:115-125 | without a user value, the first default whose condition is not n gives the value, limited by the condition and raised by a select, or the text of the symbol it names |
| Active.NoDefaultCounts | scripts/config/symbol.c:115-125 | without such a default a symbol is what a select makes it, or the empty text |
| Active.ComputedDefault | scripts/config/symbol.c:340-405 | the same for the computed value of every symbol that is hidden or not set by the user |
| Active.ComputedEmpty | scripts/config/symbol.c:340-405 | the computed value of such a symbol without a default that counts |
| Active.WrittenExactly | scripts/config/symbol.c:340-424 | a symbol is written exactly if it shows, is selected or has a default that counts, and is not taken from the environment |
| Active.SelectForces | scripts/config/symbol.c:340-386 | a symbol is at least what it is selected to, whatever the user has set |
| Active.RangeApplies | scripts/config/symbol.c:155-187 | under the first range whose condition is not n, a number below becomes the lower bound, one above the upper, any other stays |
| Active.NoRangeApplies | scripts/config/symbol.c:127-137 | without such a range every text stays |
| Active.NearestInRange | scripts/config/symbol.c:155-187 | if the bounds survive being printed, the computed number is in the range and no number there is nearer to the one put in |
| Evaluator.Evaluator.CalcValue | scripts/config/symbol.c:293-440 | evaluation makes the symbol valid with its uncached value and changes no symbol that was valid before |
| Evaluator.Evaluator.CalcVisibility | scripts/config/symbol.c:189-227 | the stored visibility and dependencies are those of the definition |
| Evaluator.Evaluator.CalcTri | scripts/config/symbol.c:340-386 | value and write flag of a boolean or tristate symbol are those of the definition |
| Evaluator.Evaluator.CalcText | scripts/config/symbol.c:387-405 | text and write flag of another symbol are those of the definition, before the range applies |
| Evaluator.Evaluator.ValidateRange | scripts/config/symbol.c:155-187 | a number outside the first active range is replaced by the bound it passes |
| Evaluator.Evaluator.DefaultProp | scripts/config/symbol.c:115-125 | the first default whose condition is not n, with the value of the condition |
| Evaluator.Evaluator.CalcExpr | scripts/config/expr.c:938-977 | evaluating an expression gives its value under the uncached definition |
| Changes.EvaluateAll | scripts/config/symbol.c:442-452 | after clearing, any sequence of evaluations in any order leaves every valid symbol with exactly its uncached value, visibility, dependencies and write flag |
| Changes.ClearAllValid | scripts/config/symbol.c:442-452 | after clearing, every valid symbol has its uncached value and its write flag, and a change is counted |
| Changes.ChangeIsLocal | scripts/config/symbol.c:293-440 | a user value has no influence on symbols that come before its own |
| Changes.SameValues | scripts/config/symbol.c:293-440 | two sets of user values give all symbols the same values exactly when each symbol keeps its value by itself |
| Changes.AcceptedTakesEffect | scripts/config/symbol.c:474-527 | a value within range is exactly what the symbol evaluates to once it is the user value |
| Changes.RangeIsExact | scripts/config/symbol.c:474-491 | a new value takes effect exactly if it is within range, or is the select bound of a visible symbol, which the range check refuses when that bound reaches the visibility |
| Changes.RangeIsChoice | scripts/config/symbol.c:474-491 | a value is within range exactly if the symbol shows, takes it, and would take another value too |
| Changes.StoredAgain | scripts/config/symbol.c:493-527 | a symbol keeps the value it has when that value is stored, exactly if it is Storable |
| Changes.StoredAgainKeepsAll | scripts/config/symbol.c:493-527 | then no other symbol changes either |
| Changes.StoredMeaning | scripts/config/symbol.c:493-527 | storing the value that the cache has for a symbol leaves all values as they are exactly if it is Storable |
| Changes.ReachIsExact | scripts/config/symbol.c:340-386 | a user value is the value of its symbol exactly if it is the select bound, or lies between it and the visibility and is not m for a boolean symbol; for a hidden symbol, exactly if it is the default |
| Changes.DefaultAboveVisibility | scripts/config/symbol.c:493-527 | a configuration in which storing the current value changes it |
| Changes.SetTristateValue | scripts/config/symbol.c:493-527 | on any state, stale or not: accepted exactly when equal or within range; a different accepted value clears the cache, counts as a change, leaves all write flags as computed, and takes effect exactly if it reaches its symbol, always if the cache was right; an equal one keeps a right cache right exactly if Storable; a refused one changes nothing |
| TextChanges.TextTakesEffect | scripts/config/symbol.c:637-683 | a text within range is what its symbol gets exactly if the symbol shows or has it already |
| TextChanges.AcceptedTexts | scripts/config/symbol.c:595-625 | a text is within range exactly if it is valid and, for a number, between the bounds of the first range whose condition is not n |
| TextChanges.StoredText | scripts/config/symbol.c:664-678 | a legal text is stored as it is, a hexadecimal number always behind 0x or 0X, and stays legal |
| TextChanges.ClearsExactly | scripts/config/symbol.c:664-683 | everything is cleared exactly if the user value becomes another one or a hexadecimal number has no prefix |
| TextChanges.TextTriExactly | scripts/config/symbol.c:643-653 | a text stands for a tristate exactly if it begins with the letter printed for it, in either case |
| TextChanges.StringWithinRange | scripts/config/symbol.c:595-625 | the check on the stored state: a valid text, and a number between the bounds of the first active range; no value changes |
| TextChanges.SetStringValue | scripts/config/symbol.c:637-683 | accepted exactly when valid and within range; everything is cleared, except for a text the user had set already; when it takes effect; a right cache stays right, and so do the write flags |
| Graphs.PathDescends | scripts/config/symbol.c:1153-1216 | along a finishing order every path of the graph descends |
| Graphs.AcyclicIsOrdered | scripts/config/symbol.c:1153-1216 | in a finite graph without a cycle all symbols can be put into such an order |
| Cycles.RankedExactly | scripts/config/symbol.c:293-440 | a configuration can be evaluated in some order exactly if MODULES uses no typed symbol and no symbol needs itself, direct dependencies and bounds of ranges included |
| Cycles.CheckedExactly | scripts/config/symbol.c:1184-1216 | the search goes on exactly to the symbols in what selects a symbol, in the conditions of its properties and in the values of its defaults |
| Cycles.PlainlySearched | scripts/config/symbol.c:1153-1216 | where nothing else is needed for evaluation, the search graph has a cycle exactly if there is no order to evaluate in |
| Cycles.SelectsSearched | scripts/config/symbol.c:1192-1194 | two symbols that select each other are always found |
| Cycles.OrderedCanBeEvaluated | scripts/config/symbol.c:1255-1287 | where evaluation needs nothing that is not searched (no bounds of ranges, no direct dependencies beyond the conditions of properties), the order found by a search without a report is one in which the configuration can be evaluated |
| Cycles.RangesNotSearched | scripts/config/symbol.c:1196-1211 | two numbers that bound each other: nothing is reported, and no order of evaluation exists |
| Cycles.Checker.CheckDeps | scripts/config/symbol.c:1255-1287 | flags and stack are restored; a symbol is returned only while it is on the stack; without a report the symbol is finished |
| Cycles.Checker.CheckSymDeps | scripts/config/symbol.c:1184-1216 | the stack entry is removed again, and without a report everything the symbol checks is finished |
| Cycles.Checker.CheckExprDeps | scripts/config/symbol.c:1153-1181 | without a report every symbol of the expression is finished |
| Cycles.Checker.PrintRecursive | scripts/config/symbol.c:1081-1151 | what is reported is a cycle of the checked graph |
| Cycles.Checker.CheckAll | scripts/config/zconf.y:522-525 | a recursion is reported exactly when the checked graph has a cycle, so where nothing else is needed for evaluation exactly when there is no order to evaluate in; all flags and the stack are restored; the error count stays 0 |
| Choices.FavouriteShows | scripts/config/symbol.c:235-291 | a choice has a favourite exactly when a member shows, and the favourite shows |
| Choices.Offered | scripts/config/symbol.c:241-249 | the first enabled default whose member shows, if there is one |
| Choices.FirstShown | scripts/config/symbol.c:251-255 | the first member that shows, if there is one |
| Choices.WishedExactly | scripts/config/symbol.c:340-386 | how far a choice is wished to be on: as far as the user has set it but not beyond its visibility, and at least as far as a select asks |
| Choices.SelectedPick | scripts/config/symbol.c:261-291 | a choice that is y selects the user's pick if that shows |
| Choices.SelectedDefault | scripts/config/symbol.c:241-249 | otherwise it selects the member named by its first default whose condition is not n and whose member shows |
| Choices.SelectedFirst | scripts/config/symbol.c:251-291 | without such a default it selects the first member that shows, and is n if none does |
| Choices.GuardsGovern | scripts/config/menu.c:308-424 | with the conditions menu_finalize gives them, members hide when the choice is n and are not y when it is m |
| Choices.Exclusive | scripts/config/symbol.c:342-344 | in a choice that is y, the selected member and no other is y, exactly if it shows fully and no other member has a default that counts and makes it y; every other member that shows fully is n |
| Choices.OwnIsDefault | scripts/config/symbol.c:345-386 | a member that does not show fully is y exactly by a default, and only if it is hidden or not set by the user |
| Choices.BooleanChoice | scripts/config/symbol.c:261-291 | a boolean choice is y exactly when it is wished to be and a member shows; otherwise all members are n |
| Choices.DroppedChoice | scripts/config/symbol.c:269-278 | dropping the user flag changes the next value of the choice exactly when only the user made it y |
| Choices.ChoiceLost | scripts/config/symbol.c:269-278 | an optional choice that is y, and n when evaluated again |
| Choices.PickTakesEffect | scripts/config/symbol.c:507-519 | a picked member that shows fully is y at the next evaluation, the choice stays y and no flag is dropped |
| Choices.PartTakesEffect | scripts/config/symbol.c:474-527 | while the choice is not y, a member takes any value up to its visibility and the choice keeps its own |
| Choices.PartEffect | scripts/config/symbol.c:474-527 | whatever the choice is, an accepted n or m takes effect exactly if the member still shows up to m at the next evaluation, or is hidden with that default; always if the choice keeps its value |
| Choices.MemberRangeIsExact | scripts/config/symbol.c:474-491 | a new value of a member is within range exactly if it would take effect, as long as the choice keeps its value |
| Choices.Choice.ChoiceDefault | scripts/config/symbol.c:235-259 | the loops find the offered default, else the first member that shows |
| Choices.Choice.CalcChoice | scripts/config/symbol.c:261-291 | the pick if it shows, else the default; user flag and value of the choice are updated as defined |
| Choices.Choice.CalcGroup | scripts/config/symbol.c:293-440 | evaluating the choice gives the value and selection that the wishes call for |
| Choices.Choice.CalcMember | scripts/config/symbol.c:342-386 | evaluating a member, before or after its choice, gives the value that the wishes call for |
| Choices.Choice.Evaluate | scripts/config/symbol.c:293-440 | any order of evaluations gives the same values for the whole group |
| Choices.Choice.SetMember | scripts/config/symbol.c:493-527 | accepted exactly when equal or within range; a member picked in a choice that is y is y afterwards; when an accepted n or m takes effect is stated exactly; a refused value changes nothing |
| SymbolTable.ChainFindsNewest | scripts/config/symbol.c:839-864 | searching one chain finds what a search through all symbols would |
| SymbolTable.SharedNames | scripts/config/symbol.c:798-837 | in a new table two symbols that are not constants share a name exactly when some name was asked for as a choice and as a plain symbol |
| SymbolTable.OneSymbolPerName | scripts/config/symbol.c:839-864 | where no name is shared, sym_find finds the symbol of every name that has one |
| SymbolTable.SharedByTwo | scripts/config/symbol.c:798-837 | two requests that make two symbols of one name, and the one that is found |
| SymbolTable.ConstantsByName | scripts/config/symbol.c:804-810 | exactly the names y, m and n give the three constants |
| SymbolTable.Table.Lookup | scripts/config/symbol.c:798-837 | the symbol of that name and kind, made only if there is none; every symbol stays in the chain of its hash |
| SymbolTable.Table.Find | scripts/config/symbol.c:839-864 | the newest symbol of the name that is not a constant; y, m and n give the built-in constants |
| SymbolTable.Run | scripts/config/symbol.c:798-837 | over any sequence of lookups, two get the same symbol exactly when name and kind agree; from a new table, names are shared exactly when asked for as both |
| Nesting.TransCompareValue | scripts/config/expr.c:877-936 | comparing an expression with y or n, by = or !=, is exact where no negated operand is m |
| Nesting.TransCompareNegation | scripts/config/expr.c:908-909 | through a NOT of any expression the comparison is exact exactly when that expression is not m |
| Nesting.DependsSymbolSound | scripts/config/expr.c:797-824 | what depends on a symbol is n while the symbol is n |
| Nesting.DependsExactly | scripts/config/expr.c:797-824 | an expression depends on a symbol exactly if some operand of it as a chain of ANDs, at any place, is the symbol, = y, = m or != n |
| Nesting.NestingJustified | scripts/config/menu.c:340-363 | an entry is nested because its condition is n while the symbol above is n, or, where no negated operand is m, because it is visible only while the prompt above is |
| Nesting.NestedWithoutReason | scripts/config/menu.c:352-363 | with a negated operand at m, an entry that is nested although neither holds |
| Nesting.NestsWithOperand | scripts/config/menu.c:343-363 | an entry is nested whenever an operand of its condition, at any place, is the symbol above in one of these forms, whatever the prompt above |
| Nesting.NestsExactly | scripts/config/menu.c:343-363 | without constants among the operands, exactly when an entry is nested, in terms of the operands of both conditions |
| Nesting.UnderValue | scripts/config/menu.c:316-331 | a condition that is handed down is the minimum of both parts, apart from the value m |
| Nesting.PropUnderValue | scripts/config/menu.c:326-331 | reading a handed-down condition as a boolean never raises it and never changes whether it is n |
| Nesting.BooleanVisibility | scripts/config/symbol.c:194-201 | the visibility of a symbol that is not tristate is the same with and without expr_trans_bool |
| MenuTree.Advance | scripts/config/confdata.c:808-819 | the step without a stack goes to the next entry of the preorder |
| MenuTree.Walk | scripts/config/confdata.c:787-820 | the walk ends and visits exactly the recursive preorder of the menu |
| Arrangement.GoalAhead | scripts/config/menu.c:316-331 | the final conditions of all entries, placed from the top down under their original parents, are what placing level by level arrives at |
| Arrangement.HandedDown | scripts/config/menu.c:316-331 | in the finished menu, an entry has a condition that is not n only while the conditions of all its original ancestors, those of their prompts and their dependencies, are not n |
| FinishedMenu.PlacedValue | scripts/config/menu.c:316-331 | a placed entry's dependency is the minimum of its own and the one handed down, apart from m; a condition of it is n if one of both is, and not n if both are y; of a tristate symbol the minimum of both apart from m |
| FinishedMenu.PlacedReduced | scripts/config/menu.c:316-331 | placed dependencies and conditions are fully reduced; an entry whose symbol is not tristate asks of no tristate symbol whether it is not n |
| FinishedMenu.BelowFollows | scripts/config/confdata.c:808-819 | in the preorder an entry is followed at once by all that is below it, then by its later siblings |
| FinishedMenu.BelongsExactly | scripts/config/menu.c:343-363 | without constants among the operands, exactly when an entry goes below another one, by the conditions of their prompts, or of the entry itself where it has no prompt |
| FinishedMenu.FinishedPreorder | scripts/config/menu.c:282-444 | finishing an entry keeps the preorder of its children and followers together, and takes followers only from the front |
| FinishedMenu.AllTaken | scripts/config/menu.c:343-372 | followers that belong below an entry end up below it, up to the first that does not |
| FinishedMenu.OnlyThese | scripts/config/menu.c:343-372 | only those are taken in, and the first that is left does not belong below |
| FinishedMenu.Dissolved | scripts/config/menu.c:374-424 | an entry with a prompt keeps its children, one without has none |
| FinishedMenu.HandedOver | scripts/config/menu.c:374-424 | the children of an entry without a prompt are found at its own level |
| FinishedMenu.OthersTakeNothing | scripts/config/menu.c:340-345 | an entry with children of its own, or without a symbol, takes no followers in |
| FinishedMenu.LevelsAreTight | scripts/config/menu.c:340-372 | at a finished level no entry with a symbol and without children is followed by one that belongs below it |
| FinishedMenu.NestedAnywhere | scripts/config/menu.c:282-444 | wherever in the menu a prompted entry without children is followed by one that belongs below it, the second is its child in the finished menu |
| FinishedMenu.DependingAnywhere | scripts/config/menu.c:343-363 | in particular if an operand of the second one's condition is the first one's symbol in one of the forms looked for |
| MenuFinalize.Menus.PlaceChildren | scripts/config/menu.c:316-339 | each child gets its conditions placed under those of its parent, and no link changes |
| MenuFinalize.Menus.Absorb | scripts/config/menu.c:343-372 | exactly the following entries that belong below, up to the first that does not, become children, as the function TakenFrom says; nothing is lost or reordered |
| MenuFinalize.Menus.Flatten | scripts/config/menu.c:374-424 | entries without a prompt lose their children to their own level, as the function Flattened says; the preorder stays |
| MenuFinalize.Menus.FinalizeChildren | scripts/config/menu.c:340-341 | children that grow at the cost of their followers keep the preorder |
| MenuFinalize.Menus.Finalize | scripts/config/menu.c:282-444 | the children and followers are those of the function Finished on the final conditions; the preorder stays, every child names the entry that holds it, only prompted entries keep children |
| MenuFinalize.FinalizeMenu | scripts/config/menu.c:282-444 | the finished menu is a tree with the same entries in the same order, each with its final conditions and nested where these put it |
| Forests.SamePreorder | scripts/config/menu.c:282-444 | with one preorder, no entry is lost or duplicated |
| Defconfig.DefaultText | scripts/config/symbol.c:693-758 | the default string differs from the value's string exactly when the value differs from the one without user value |
| Defconfig.PinnedExactly | scripts/config/confdata.c:695-711 | the symbols that show, have no line and are not what they would be without a user value are exactly those set by the user that show and are selected up to m with the default y, or are taken from the environment or are texts selected as far as they show, with a user value that makes a difference |
| Defconfig.FileStep | scripts/config/confdata.c:680-718 | a symbol of any type among unchanged others keeps its value under the written lines exactly if it is not pinned and its text is steady |
| Defconfig.FileIsLossless | scripts/config/confdata.c:665-736 | the minimal configuration gives every symbol of any type the value it had, exactly when no symbol is pinned and every text is steady |
| Defconfig.SoundRangesAreSteady | scripts/config/symbol.c:155-187 | texts are steady where no active range is turned around and its bounds survive being printed |
| Defconfig.LineMatters | scripts/config/confdata.c:712-718 | once the symbols before it have their values, a line is redundant exactly if its value is the default put into its range; that of a boolean or tristate symbol never is |
| Defconfig.EveryLineMatters | scripts/config/confdata.c:665-736 | in a minimal configuration that loses nothing, the redundant lines are exactly those numbers |
| Defconfig.BooleanFile | scripts/config/confdata.c:665-736 | with boolean symbols only, every value is kept and every line matters |
| Defconfig.TristateLost | scripts/config/confdata.c:695-711 | a symbol that is m before and y under the written lines |
| Defconfig.RedundantLine | scripts/config/confdata.c:712-718 | a number whose line is written and redundant |
| Writer.GetStringDefault | scripts/config/symbol.c:693-758 | the default string computed on the stored state is that of the definition, and no value changes |
| Writer.ExpectedLists | scripts/config/confdata.c:787-807 | exactly the symbols to keep are listed, each once, whatever number of entries they have |
| Writer.ExpectedInOrder | scripts/config/confdata.c:787-820 | the lines stand in the order in which their symbols are first visited |
| Writer.EntrySymbolsExactly | scripts/config/confdata.c:787-820 | what is visited are the typed symbols of the entries, whatever else the entries hold |
| Writer.WriteDefconfig | scripts/config/confdata.c:665-736 | prints exactly the symbols whose value is changeable and differs from the default, each once, with their values |
| Writer.WriteConfig | scripts/config/confdata.c:784-833 | on any state, stale or not: prints the complete configuration of the user values that the stored values were computed from, every writable symbol once, exactly when nothing has changed or the flags found are those computed; the change count is reset |
| Writer.DefconfigThenConfig | scripts/config/confdata.c:665-820 | after a minimal configuration the count is raised and the flags are cleared, so conf_write would print no symbol |
| Writer.ConfWrite | scripts/config/confdata.c:784-833 | the same over a finished menu, in the preorder of its entries |
| Sessions.StaleIsExact | scripts/config/symbol.c:493-527 | the stored values are those of the user values exactly while no symbol has been stored with a value it had but would not keep |
| Sessions.SaveShows | scripts/config/confdata.c:784-833 | what a save prints is what every symbol has after it; user values stay and nothing is pending then |
| Sessions.TextStored | scripts/config/symbol.c:655-683 | an accepted text becomes the user value; the same one again changes nothing unless it is a hexadecimal number without prefix, and any other one clears everything |
| Sessions.SaveIsExact | scripts/config/confdata.c:784-833 | a save prints the complete configuration of the user values if nothing is pending or no symbol is stale, and only then if stale symbols have a menu entry and are not taken from the environment |
| Sessions.EverySave | scripts/config/confdata.c:784-833 | the same for every save of any session of looking, setting and saving |
| Sessions.SavesAreRight | scripts/config/confdata.c:784-833 | all saves of a session are right exactly if every one is made with nothing pending or no symbol stale |
| Sessions.Perform | scripts/config/confdata.c:784-833 | one action on the stored state does what the session says, and a save prints that |
| Sessions.Session | scripts/config/confdata.c:784-833 | any session on the stored state prints what the session says, stale symbols or not |
| Sessions.WrongSave | scripts/config/conf.c:222-228 | with a change pending, confirming a default above the visibility and saving prints y for a symbol that the user values make m |
| Escaping.EscapeRoundTrip | scripts/config/symbol.c:915-956 | reading an escaped string gives the string |
| Escaping.UnescapeMarked | scripts/config/confdata.c:155-169 | a backslash before any character stands for that character, and the string ends at the first quote without one |
| Escaping.UnescapeUnclosed | scripts/config/confdata.c:155-169 | without such a quote there is no string |
| Escaping.BufferSize | scripts/config/symbol.c:921-937 | the first pass finds the exact size |
| Escaping.EscapeString | scripts/config/symbol.c:938-956 | the second pass fills the buffer exactly, with the terminating zero in its last place |
| Escaping.UnescapeInPlace | scripts/config/confdata.c:155-169 | unescaping inside the line buffer gives the unescaped text, ended by a zero, and touches nothing before it; without closing quote it fails |
| ConfigFile.LineRoundTrip | scripts/config/confdata.c:485-505 | reading a printed line stores exactly the printed value, for every type, and nothing for a number that has no legal value |
| ConfigFile.FileRoundTrip | scripts/config/confdata.c:320-374 | reading a printed file stores exactly the printed values that are legal |
| ConfigFile.SavedAllValues | scripts/config/confdata.c:320-374 | for distinct symbols, each one printed with a legal value has it and no other one changes |
| ConfigFile.LineSetsOne | scripts/config/confdata.c:320-374 | a line changes at most one symbol, one of the table, and gives it a value that is legal for its type |
| ConfigFile.OnlyLegalIsRead | scripts/config/confdata.c:320-374 | whatever a file holds, reading it leaves only values that are legal for their symbols |
| ConfigFile.ValidIntExactly | scripts/config/symbol.c:552-593 | the legal integers are the numbers in their one decimal form, each with and without a minus |
| ConfigFile.ValidHexExactly | scripts/config/symbol.c:552-593 | the legal hexadecimal numbers are one or more hexadecimal digits behind 0x, 0X or nothing |
| ConfigFile.ReturnsReadAlike | scripts/config/confdata.c:349-374 | a file with a carriage return before every newline reads like the file without them |
| LineReader.Reader.AddByte | scripts/config/confdata.c:190-209 | the byte is appended and nothing before it changes; a full buffer is doubled |
| LineReader.Reader.GetLine | scripts/config/confdata.c:211-243 | the next line with its newline and a zero after it, or -1 exactly at the end of the file |
| LineReader.ReadConfig | scripts/config/confdata.c:320-374 | reading through the growing buffer gives the same user values as the text itself |
| SaveAndLoad.PrintedIsRead | scripts/config/confdata.c:320-374 | printing any selection of symbols and reading it gives exactly these symbols their printed values, but for numbers without a legal value |
| SaveAndLoad.MinimalConfigRestores | scripts/config/confdata.c:665-736 | saving a minimal configuration as text and loading it restores every value exactly when no symbol is pinned and every text is steady, with boolean symbols always |
| SaveAndLoad.SaveMinimalAndLoad | scripts/config/confdata.c:665-736 | the same for the writer on the stored state and the reader on its buffer |
| SaveAndLoad.FullConfigValues | scripts/config/confdata.c:787-807 | after saving and loading a full configuration every printed symbol with a legal value has its computed value for a user value |
| SaveAndLoad.FullConfigRestores | scripts/config/confdata.c:787-807 | it restores every value exactly when no printed value lies above its visibility or outside its range, and no unprinted one, and none that cannot be read, is another than the symbol has without the user; a number that shows without a value is covered |
| Whitespace.CleanSpaceTabs | scripts/cleanpatch:15-51 | the character loop with its shifts and masks computes the cleaned string |
| Whitespace.MaskAndShift | scripts/cleanpatch:28-29 | the mask rounds to the next tab stop, and the shifts count the tabs to it |
| Whitespace.CleanKeepsColumns | scripts/cleanpatch:15-51 | every visible character and the end keep their column exactly when the string is aligned, under either reading of carriage returns |
| Whitespace.UsuallyAligned | scripts/cleanpatch:15-51 | every string is aligned if carriage returns go back to the left edge, and every string without them if they do not |
| Whitespace.StrWidth | scripts/cleanpatch:54-76 | the loop computes the width |
| Whitespace.WidthIsFarthest | scripts/cleanpatch:54-76 | the width is the farthest column that any beginning of the string reaches |
| Whitespace.CleanKeepsWidth | scripts/cleanpatch:15-76 | cleaning keeps the width and all columns of strings without carriage returns, and the width of every aligned string |
| Whitespace.ReturnsMoveWidth | scripts/cleanpatch:33-39 | with a carriage return the width can change from 16 to 8 |
| Whitespace.CleanFixpoints | scripts/cleanpatch:15-51 | no space is left before a tab, exactly the strings without one are left alone, and cleaning twice is cleaning once |
| Whitespace.CleanLength | scripts/cleanpatch:15-51 | cleaning never lengthens, and keeps the length exactly if each replaced run is one space in the last column before a tab stop |
| Whitespace.ChangedInPlace | scripts/cleanpatch:15-51 | the strings that change without changing their length |
| Whitespace.SpaceBecomesTab | scripts/cleanpatch:27-32 | a string in which one space becomes one tab |
| Patches.StripEnd | scripts/cleanpatch:162 | exactly the blanks and carriage returns at the end go |
| Patches.ParseCounts | scripts/cleanpatch:142-190 | every hunk that is accepted has as many lines of each side as its header says |
| Patches.CleanedLine | scripts/cleanpatch:161-163 | an added line loses exactly the blanks and carriage returns at its end and is cleaned before them; its last character and its newline stay |
| Patches.CleanHunk | scripts/cleanpatch:157-226 | cleaning a hunk keeps the lines it replaces, cleans the new ones and drops the blank lines it adds at its end; the header still counts right and is left alone if no line was dropped |
| Patches.VanishingHunk | scripts/cleanpatch:198-208 | a hunk is cleaned to nothing exactly if all its lines add blanks |
| Patches.CleanedIsPatch | scripts/cleanpatch:138-242 | a cleaned patch is read back as the cleaned hunks, but for those that only add blank lines |
| Patches.HunkVanishes | scripts/cleanpatch:198-226 | a hunk that is cleaned to a header which announces nothing |
| Patches.CleanedInVain | scripts/cleanpatch:244-255 | cleaning never makes a file longer; exactly when its length is kept, and exactly when it is changed all the same and not written |
| Patches.InVain | scripts/cleanpatch:244-255 | a patch that is cleaned and not written |
| Patches.FinishHunk | scripts/cleanpatch:190-226 | the backward loop drops exactly the blank lines added at the end and corrects the header by their number |
| Patches.CleanPatch | scripts/cleanpatch:138-255 | an error exactly for a malformed patch, otherwise all its hunks cleaned in place; written exactly if the bytes counted differ |

## Left out

- Choices are modelled on their own (module Choices) and only with the values of the other symbols given; the evaluator, the cycle search, the writers and menu_finalize are modelled for configurations without choices, as menu.c:290-313 and 376-414 and symbol.c:1218-1253 would only add branches around them.
- Choices.Choice.SetMember: storing a value the member already has is modelled with its effect on the flags, but not followed into the next evaluation, which the code does not ask for either.
- SYMBOL_WRITE on choice members, which symbol.c:416-424 only ever sets, and SYMBOL_NEED_SET_CHOICE_VALUES.
- MODULES is taken to be boolean, or the constant n, and to use no symbol with a type: the code reads a stored modules_val that could otherwise be stale.
- MenuFinalize.Menus.PlaceChildren: does not build rev_dep from select properties (menu.c:332-338); rev_dep is given with the symbols.
- MenuFinalize.Menus.Absorb: does not add the condition of the entry to dir_dep (menu.c:373); dir_dep is given with the symbols.
- Nesting.TransCompareValue: does not cover comparing with m, which returns an AND or OR as it is (expr.c:886-907) and which no caller asks for, nor plain operands that are texts.
- Expressions are trees of values: sharing of nodes between expressions, reference counts and freeing are not modelled; two pointers into one expression are.
- Menu entries and symbols are reached through identifiers in a map instead of addresses.
- Allocation failure, warnings and message texts; a report is counted and its chain computed, its wording is not.
- SYMBOL_CHANGED and MENU_CHANGED, which only drive redrawing and autoconf files.
- strtoll and sprintf are parameters of a configuration; the symbol table is a parameter of the file reader.
- Unmet dependencies (symbol.c:367-380): expr_simplify_unmet_dep only shapes a warning.
- E_LIST and E_RANGE as expressions; ranges and choice lists are properties here.
- Comment and heading lines, menu titles between symbols, renaming files, environment variables, autoconf and header output (confdata.c:508-659 and 738-1022).
- The passes of conf_read after reading (confdata.c:410-474), which reset values that went out of range and count unsaved symbols.
- Lines of a configuration file are taken to hold no zero byte, and names of symbols bytes below 128, whose sign in strhash does not depend on the platform.
- Symbols without a type are skipped by the writers: nothing is printed for them.
- Print.PrintedAlike: tokens carry the symbol instead of its name, so it speaks of grouping, not of two symbols that share a name.
- Patches: finding headers by regular expression is parsing a line into its fields, with the characters beyond its usual form counted as slack; file handling, binary files and the width warning are not modelled.
- Sessions.Session: loading a file in between (mconf.c:918, conf_read) is not one of its actions; writing succeeds.
- Sessions.EverySave: assumes that the symbols set have menu entries and are not taken from the environment; SaveIsExact says what holds of others.
- TextChanges.SetStringValue: a symbol without a user value is taken to have no old text either; a text left behind when conf_read drops the user flag (confdata.c:453-463) is not modelled.
- SaveAndLoad.FullConfigRestores: printed strings hold no newline, which conf_write does not escape (symbol.c:915-956), and numbers neither a newline nor a carriage return at the end.
- Rearrange.EqualExactly: is about expressions without constants among the operands; of others, which expr_eliminate_yn would first rewrite, SameOperandsEqual and ExprEqSound say what holds, and OrderMatters what does not. The same bound stands in the exact statements built on it (ImpliedExactly, ExtractedExactly, NestsExactly, BelongsExactly, OpposedExactly).
- EliminateDups.KeptValues: is exact for each value over all expressions; for a single expression of value m, SimplifiedExact names a sufficient condition only.
- The terminal interface, conf.c and mconf.c, the grammar of Kconfig files, `scripts/slugimage.pl`, `scripts/kconfig.pl`, `scripts/dl_cleanup.py`, `scripts/srecimage.pl` and the shell scripts: input and output plumbing, or easy members only.
