# Verified models of Kconfig, CoreMark and 64-bit division

The repository builds a RISC-V computer: a simulator configured with Kconfig, a small C library for
the bare machine, and benchmarks that run on it. This project models the three places where its C
code is hardest to be sure of, and proves what they are for.

**Kconfig** (`riscv32-cpu/simulator/tools/kconfig`)

- `Expr.dfy`, `ExprEq.dfy`, `ExprCancel.dfy`, `ExprOrder.dfy`, `ExprDups.dfy`, `ExprTransform.dfy`: dependency
  expressions over n < m < y and the simplifier. Trees are values; where the code walks one tree with
  two pointers, the pointers are paths into it. Every pass keeps the value, ends, and reaches the form
  it aims at.
- `MenuDeps.dfy`, `MenuTree.dfy`, `MenuInherit.dfy`, `MenuSubmenus.dfy`, `MenuFinalize.dfy`, `MenuMeaning.dfy`,
  `MenuBelongs.dfy`, `MenuSelects.dfy`, `ConfWrite.dfy`, `ConfLines.dfy`: the menu tree, linked by list, next and parent pointers,
  `menu_finalize` with its dependency propagation, automatic submenus and flattening, what it means for
  dependencies, selects and implies, and the walk that writes the configuration.
- `SymbolDeps.dfy`, `SymbolEval.dfy`, `SymbolValue.dfy`, `SymbolMemo.dfy`: the recursive-dependency check and the
  memoised evaluator. The meaning of a symbol table is the solution of one equation per symbol.
- `Escape.dfy`: writing string values and reading them back, on character buffers.

**64-bit division** (`Int64Bits.dfy`, `Int64Div.dfy`, `Int64Signed.dfy`): words are natural numbers
below 2^32 or 2^64, with wrap-around written out.

**CoreMark** (`CoreListOrder.dfy`, `CoreList.dfy`, `CoreBench.dfy`, `CoreState.dfy`, `CoreScan.dfy`,
`CoreDamage.dfy`, `Crc.dfy`): the linked list with its in-place merge sort, the number recogniser, and
the checksum.

To check the whole project: `dafny verify dfyconfig.toml`.

Some things turn out to hold only under a condition. The model follows the code, shows an input where the
claim fails, and states when it holds:

- A comment at `core_state.c:99` says that equal seeds undo the corruption. A byte that becomes a comma
  is not restored (`CoreDamage.RestoredIff`, `CoreDamage.NotRestored`).
- The comments at `expr.c:216-217` and `expr.c:245-250` say that the order of operands does not matter to
  `expr_eq`. With y or n inside the operands it does, even if two operands are exchanged
  (`KconfigExprOrder.OrderCounterexample`); it does not exactly where `expr_eq` is transitive on the operands
  (`KconfigExprOrder.OrderExact`), so never without such constants (`KconfigExprOrder.EqualForms`).
- The comment at `expr.c:245-250` calls expressions equal if every operand of one equals some operand of the
  other. The code asks in addition that each stands as often (`KconfigExprOrder.EqualForms`,
  `KconfigExprOrder.RepeatedOperand`).
- `expr_join_and` is wrong exactly for a pair of comparisons that clash, which takes a numeral used as a
  constant (`KconfigExprDups.JoinAndExact`, `KconfigExprDups.JoinAndCounterexample`). Duplicate elimination
  is right for all expressions exactly where this cannot happen (`KconfigExprDups.DedupExact`).
- `expr_trans_bool` keeps the value only after promotion of m: always on transformed expressions
  (`KconfigExprTransform.TransBoolPromoted`), on all others exactly while no tristate symbol is m
  (`KconfigExprTransform.TransBoolExact`, `KconfigExprTransform.TransBoolCounterexample`).
- `expr_trans_compare` with n does not tell whether an expression differs from n, but whether it does
  when m counts as y in every symbol (`KconfigExprTransform.TransCompareValue`). For all expressions
  without the constant m the two are the same exactly while no tristate symbol is m
  (`KconfigExprTransform.TransCompareExact`, `KconfigExprTransform.TransCompareCounterexample`), and with
  string and number symbols exactly while these read like their texts as well
  (`KconfigExprTransform.TransCompareExactText`, `KconfigExprTransform.TransCompareTextCounterexample`).
- An entry of an automatic submenu can be m while the symbol above it and its prompt are n. For all entries
  without the constant m this cannot happen exactly while no tristate symbol is m
  (`KconfigMenuDeps.SubmenuExact`, `KconfigMenuDeps.SubmenuCounterexample`).
- The condition `FOO!=n` of a select in a bool becomes `FOO`, and a tristate symbol that it selects is then m
  for FOO=m. Conditions of symbols that are not tristate are worth what is written exactly while no tristate
  symbol is m (`KconfigMenuDeps.PropConditionExact`, `KconfigMenuSelects.SelectWeakened`).
- The direct dependency of a symbol is not y just because one of its entries has no dependency
  (`KconfigMenuSelects.DirectIntended`, `KconfigMenuSelects.DirectCounterexample`).
- `__divdi3` returns the minimum value for the minimum value divided by -1 (`Int64Signed.Divdi3`).
- `sym_set_tristate_value` accepts the current value without any test; it then becomes the user value,
  which sticks exactly under the condition of `KconfigSymbolEval.SetThenCompute`
  (`KconfigSymbolEval.CurrentValueNeedNotStick`).

Throughout, an assignment is *legal* if the constants have their values, booleans are not m, nothing is
m without modules, and the letters y, m and n do not read as numbers; `KconfigSymbolEval.SolutionLegal`
proves that evaluation produces only such assignments. It is *clear* for a set of symbols if none of them,
being tristate, equals two constants of the set; with no constants but y, m and n every legal assignment
is clear (`KconfigExpr.LettersAreClear`). A string or number symbol *reads like its text* if its value in an
expression is not m, and is n exactly if its text compares equal to n.

## Model

| member | source | states |
|---|---|---|
| KconfigExpr.CompareConstant | riscv32-cpu/simulator/tools/kconfig/expr.c:1030-1102 | a bool or tristate symbol compares equal to y, m or n exactly when it has that value, through the string comparison that the code performs |
| KconfigExpr.NumbersCompare | riscv32-cpu/simulator/tools/kconfig/expr.c:1030-1102 | symbols that read as numbers are compared as numbers in all six relations; if one is unsigned both are, a negative one as a 64-bit word |
| KconfigExpr.TextsCompare | riscv32-cpu/simulator/tools/kconfig/expr.c:1030-1102 | two strings, or symbols of which one is no number, are compared in dictionary order |
| KconfigExpr.HarmlessSeparated | riscv32-cpu/simulator/tools/kconfig/expr.c:985-1102 | in a legal world a tristate symbol equals two constants at once only if one of them reads as 0, 1 or 2, or is a quoted y, m or n |
| KconfigExpr.LettersAreClear | riscv32-cpu/simulator/tools/kconfig/expr.c:985-1102 | with no constants but y, m and n every legal assignment is free of that |
| KconfigExpr.EvalCongruence | riscv32-cpu/simulator/tools/kconfig/expr.c:1030-1102 | the value of an expression depends only on the values of the symbols in it |
| KconfigExprEq.EliminateYNSound | riscv32-cpu/simulator/tools/kconfig/expr.c:316-397 | removing y and n operands keeps the value under every assignment |
| KconfigExprEq.EliminateYNComplete | riscv32-cpu/simulator/tools/kconfig/expr.c:316-397 | no removable y or n is left; the tree shrinks if there was one and is unchanged otherwise |
| KconfigExprEq.CancelSound | riscv32-cpu/simulator/tools/kconfig/expr.c:150-190 | there is one value k such that each operand has its old value again when k is joined to what cancellation left of it |
| KconfigExprEq.ExprEqSound | riscv32-cpu/simulator/tools/kconfig/expr.c:252-303 | expressions that `expr_eq` calls equal have equal values under every assignment |
| KconfigExprEq.SupersetSound | riscv32-cpu/simulator/tools/kconfig/expr.c:221-241 | if `expr_eliminate_eq` reduces its second argument to y, the first never exceeds the second |
| KconfigExprCancel.CancelRefinesLoops | riscv32-cpu/simulator/tools/kconfig/expr.c:150-190 | the recursive two-tree walk does to the operands what two nested loops over the two operand lists do, and keeps the shape of both trees |
| KconfigExprCancel.CancelComplete | riscv32-cpu/simulator/tools/kconfig/expr.c:150-190 | afterwards no operand on one side equals one on the other, apart from the constants that mark cancelled places |
| KconfigExprCancel.ExprEqReflexive | riscv32-cpu/simulator/tools/kconfig/expr.c:252-303 | `expr_eq` finds every expression equal to itself, although it decides by cancelling a copy against a copy |
| KconfigExprOrder.ExprEqSymmetric | riscv32-cpu/simulator/tools/kconfig/expr.c:252-303 | it does not matter which expression comes first, although the walk over the two trees is not symmetric |
| KconfigExprOrder.EqualForms | riscv32-cpu/simulator/tools/kconfig/expr.c:245-303 | without y and n as operands `expr_eq` finds two expressions equal if and only if they have the same operands, each as often, in any order and with any parentheses, at every level |
| KconfigExprOrder.OrderExact | riscv32-cpu/simulator/tools/kconfig/expr.c:245-303 | with them, rearranged operands taken from a set are always found equal if and only if `expr_eq` is transitive on the set, apart from expressions that reduce to y or n |
| KconfigExprOrder.OrderCounterexample | riscv32-cpu/simulator/tools/kconfig/expr.c:245-303 | it is not transitive on P = `(A or n) and B`, Q = `A and B`, R = `(A or n) and (B or n)`: `(P or R) or Q` and `Q or (P or R)` are not found equal |
| KconfigExprOrder.ReorderedEqual | riscv32-cpu/simulator/tools/kconfig/expr.c:245-303 | rearranged operands are found equal if no AND or OR inside them has y or n as an operand |
| KconfigExprOrder.RepeatedOperand | riscv32-cpu/simulator/tools/kconfig/expr.c:245-250 | an operand that stands twice counts twice: `A and A and B` is not equal to `A and B`, although each operand of one equals one of the other |
| KconfigExprOrder.EliminateEqExact | riscv32-cpu/simulator/tools/kconfig/expr.c:192-245 | `expr_eliminate_eq` leaves of two ANDs or two ORs without constants exactly the operands, as a multiset, by which each exceeds the other |
| KconfigExprOrder.EliminateEqSingle | riscv32-cpu/simulator/tools/kconfig/expr.c:192-245 | anything else against an AND or OR counts as one operand |
| KconfigExprOrder.EqualFormsCancel | riscv32-cpu/simulator/tools/kconfig/expr.c:207-208 | expressions that differ only in order and parentheses, at any level, leave y and y of ANDs, n and n of ORs |
| KconfigExprOrder.SupersetExact | riscv32-cpu/simulator/tools/kconfig/expr.c:221-241 | y is left of the second expression if and only if the first, an AND, has all of its operands |
| KconfigExprDups.JoinOrSound | riscv32-cpu/simulator/tools/kconfig/expr.c:431-493 | joining two operands of OR gives an expression worth their maximum |
| KconfigExprDups.JoinOrApplies | riscv32-cpu/simulator/tools/kconfig/expr.c:431-493 | exactly which operands of OR are joined: equal ones, two comparisons of a tristate symbol for equality with different ones of y, m and n, and a bool with its negation |
| KconfigExprDups.JoinAndExact | riscv32-cpu/simulator/tools/kconfig/expr.c:495-587 | joining two operands of AND gives an expression worth their minimum if and only if they do not clash: one asks whether a tristate symbol equals a constant, the other whether it differs from another one, and the symbol equals both |
| KconfigExprDups.JoinAndCounterexample | riscv32-cpu/simulator/tools/kconfig/expr.c:538-546 | `FOO="1"` and `FOO!=m` clash for FOO=m: the join is y, the value n |
| KconfigExprDups.JoinAndSound | riscv32-cpu/simulator/tools/kconfig/expr.c:495-587 | so the join is right whenever no symbol of the operands equals two of their constants |
| KconfigExprDups.JoinAndApplies | riscv32-cpu/simulator/tools/kconfig/expr.c:495-587 | exactly which operands of AND are joined: equal ones, a symbol with `=y`, `!=n` or `!=m` of itself, and of a tristate symbol an equality and an inequality with constants, or inequalities with two of y, m and n |
| KconfigExprDups.Dups1Sound | riscv32-cpu/simulator/tools/kconfig/expr.c:596-651 | the walk of a tree against itself keeps the value of the whole tree, wherever its two pointers stand, if no symbol of the tree equals two of its constants |
| KconfigExprDups.Dups1Count | riscv32-cpu/simulator/tools/kconfig/expr.c:596-651 | `trans_count` is raised exactly when the walk changed the tree, and then a removable constant is left, so that the next pass shrinks the tree |
| KconfigExprDups.EliminateDups | riscv32-cpu/simulator/tools/kconfig/expr.c:664-686 | the do-while loop ends, and computes the iterated passes |
| KconfigExprDups.DedupSound | riscv32-cpu/simulator/tools/kconfig/expr.c:664-686 | duplicate elimination keeps the value under every legal assignment in which no symbol of the expression equals two of its constants |
| KconfigExprDups.DedupExact | riscv32-cpu/simulator/tools/kconfig/expr.c:495-686 | for all expressions over a set of symbols it does so if and only if no tristate symbol of the set equals two constants of the set |
| KconfigExprDups.DedupKeepsValue | riscv32-cpu/simulator/tools/kconfig/expr.c:664-686 | with no constants but y, m and n it keeps the value under every legal assignment |
| KconfigExprDups.DedupSyms | riscv32-cpu/simulator/tools/kconfig/expr.c:664-686 | it brings in no symbols but y, m and n |
| KconfigExprDups.DedupComplete | riscv32-cpu/simulator/tools/kconfig/expr.c:664-686 | in the result nothing is left that any pair of operands of a level could be joined to |
| KconfigExprCancel.DedupNoDuplicates | riscv32-cpu/simulator/tools/kconfig/expr.c:664-686 | no two operands of the top level of the result are equal |
| KconfigExprOrder.DedupNoReordered | riscv32-cpu/simulator/tools/kconfig/expr.c:664-686 | nor do two of them, if without constants inside, differ only in order and parentheses |
| KconfigExprTransform.TransformSound | riscv32-cpu/simulator/tools/kconfig/expr.c:694-849 | `expr_transform` keeps the value under every assignment; it ends although it transforms its own output again |
| KconfigExprTransform.TransformNormal | riscv32-cpu/simulator/tools/kconfig/expr.c:694-849 | in the result NOT stands only above symbols that are not constants, and no bool is compared with y, m or n for equality or inequality |
| KconfigExprTransform.TransformFixpoint | riscv32-cpu/simulator/tools/kconfig/expr.c:694-849 | the trees that a further transformation leaves alone are exactly those of the transformed form |
| KconfigExprTransform.DedupNormal | riscv32-cpu/simulator/tools/kconfig/expr.c:664-686 | duplicate elimination keeps that form |
| KconfigExprTransform.TransBoolPolarity | riscv32-cpu/simulator/tools/kconfig/expr.c:402-426 | rewriting `FOO!=n` to `FOO` keeps whether an expression is n below an even number of negations, and whether it is y below an odd number |
| KconfigExprTransform.TransBoolPromoted | riscv32-cpu/simulator/tools/kconfig/expr.c:402-426 | on a transformed expression the value after promoting m to y is unchanged |
| KconfigExprTransform.TransBoolExact | riscv32-cpu/simulator/tools/kconfig/expr.c:402-426 | on all expressions of whatever form this holds exactly while no tristate symbol is m |
| KconfigExprTransform.TransBoolCounterexample | riscv32-cpu/simulator/tools/kconfig/expr.c:402-426 | without the transformed form this fails: a negated `FOO!=n` with FOO=m |
| KconfigExprTransform.TransCompareDecides | riscv32-cpu/simulator/tools/kconfig/expr.c:922-985 | `expr_trans_compare(e, !=, n)` is y or n and is negated by the = form, for every expression; it agrees with `e` whenever `e` is not m and no symbol in it has a text that reads otherwise than its value |
| KconfigExprTransform.TransCompareValue | riscv32-cpu/simulator/tools/kconfig/expr.c:922-985 | for every expression and symbols of every type it is worth the expression with m counting as y in every symbol and with texts that are not n counting as y |
| KconfigExprTransform.TransCompareUnnegated | riscv32-cpu/simulator/tools/kconfig/expr.c:922-985 | it tells whether `e` differs from n wherever no negated part of `e` is m and string and number symbols read like their texts |
| KconfigExprTransform.TransCompareExact | riscv32-cpu/simulator/tools/kconfig/expr.c:922-985 | it does so for all expressions without the constant m if and only if no tristate symbol is m |
| KconfigExprTransform.TransCompareExactText | riscv32-cpu/simulator/tools/kconfig/expr.c:922-985 | for the expressions without the constant m over a set of symbols of any type, it does so if and only if none of them is m and each that is neither bool nor tristate reads like its text |
| KconfigExprTransform.TransCompareTextCounterexample | riscv32-cpu/simulator/tools/kconfig/expr.c:922-985 | a string symbol with the text "foo" is n as an expression, and its comparison says y |
| KconfigExprTransform.TransCompareCounterexample | riscv32-cpu/simulator/tools/kconfig/expr.c:922-985 | with a negated tristate symbol at m it says n, although the expression differs from n |
| KconfigMenuDeps.RewriteMSound | riscv32-cpu/simulator/tools/kconfig/menu.c:82-105 | after the rewriting, m means m with modules and n without them; nothing else changes |
| KconfigMenuDeps.PropagateForm | riscv32-cpu/simulator/tools/kconfig/menu.c:350-360 | the dependency that an entry gets is in transformed form if its parent's is, has nothing left to join, and mentions nothing new but MODULES and y, m and n |
| KconfigMenuDeps.PropagateSound | riscv32-cpu/simulator/tools/kconfig/menu.c:350-360 | it is worth the minimum of the parent's and the entry's own, if no symbol in them equals two of the constants |
| KconfigMenuDeps.PropagateKeepsValue | riscv32-cpu/simulator/tools/kconfig/menu.c:350-360 | with no constants but y, m and n that holds under every legal assignment |
| KconfigMenuDeps.PropConditionSound | riscv32-cpu/simulator/tools/kconfig/menu.c:395-406 | a property's condition is worth the minimum of the entry's dependency and its own; for a symbol that is not tristate this holds after promotion of m to y |
| KconfigMenuDeps.PropConditionPlain | riscv32-cpu/simulator/tools/kconfig/menu.c:395-406 | while no tristate symbol is m it is worth that minimum without promotion, for every type |
| KconfigMenuDeps.PropConditionExact | riscv32-cpu/simulator/tools/kconfig/menu.c:395-406 | for a symbol that is not tristate the conditions are all worth that minimum if and only if no tristate symbol is m |
| KconfigMenuDeps.DependsSound | riscv32-cpu/simulator/tools/kconfig/expr.c:879-906 | an expression that depends on a symbol in the sense of the code is n whenever the symbol is n |
| KconfigMenuDeps.VisibleValue | riscv32-cpu/simulator/tools/kconfig/menu.c:456-458 | the simplified comparison with n is worth the expression with m counting as y in every symbol, which is the expression itself where that is not m and string and number symbols read like their texts |
| KconfigMenuDeps.SubmenuImplies | riscv32-cpu/simulator/tools/kconfig/menu.c:463-491 | an entry that is put below a symbol implies the symbol or its prompt's condition, with m counting as y in every symbol; where string and number symbols read like their texts it is never y without them, nor m unless its condition negates something that is m |
| KconfigMenuDeps.SubmenuCounterexample | riscv32-cpu/simulator/tools/kconfig/menu.c:463-491 | without that the plain implication fails: the prompt `if A=n` of S, the entry `!A and (S or Q)` and A=m, S=n, Q=y |
| KconfigMenuDeps.SubmenuExact | riscv32-cpu/simulator/tools/kconfig/menu.c:463-491 | while a symbol is n, all entries without the constant m that go below it imply its prompt's condition if and only if no tristate symbol is m |
| KconfigMenuBelongs.DependsExact | riscv32-cpu/simulator/tools/kconfig/expr.c:879-906 | an expression depends on a symbol in the sense of the code exactly if the symbol itself or its comparison `=y`, `=m` or `!=n` is one of its top-level AND operands |
| KconfigMenuBelongs.DependentBelongs | riscv32-cpu/simulator/tools/kconfig/menu.c:463-491 | an entry with such an operand goes below the symbol, whatever else its condition says |
| KconfigMenuBelongs.UnconditionalPrompt | riscv32-cpu/simulator/tools/kconfig/menu.c:463-491 | below a symbol whose prompt has no condition goes exactly what mentions the symbol |
| KconfigMenuBelongs.BelongsExact | riscv32-cpu/simulator/tools/kconfig/menu.c:463-491 | otherwise an entry whose visibility is a conjunction goes below a symbol exactly if it mentions the symbol and either depends on it or has all operands of the prompt's condition |
| KconfigMenuBelongs.FollowerGoesBelow | riscv32-cpu/simulator/tools/kconfig/menu.c:460-505 | an entry with `depends on S` that follows the symbol S ends up as the only entry in the submenu of S |
| KconfigMenuTree.Reparent | riscv32-cpu/simulator/tools/kconfig/menu.c:576-580 | all children get the new parent, and the last of them is returned |
| KconfigMenuTree.Hoist | riscv32-cpu/simulator/tools/kconfig/menu.c:575-584 | the children of a node become its next siblings, followed by the old ones; all links of the new row are right |
| KconfigMenuTree.HoistKeepsOrder | riscv32-cpu/simulator/tools/kconfig/menu.c:575-584 | moving children up in this way keeps the preorder |
| KconfigMenuTree.FlattenChildren | riscv32-cpu/simulator/tools/kconfig/menu.c:506-585 | the loop ends, keeps the preorder of the nodes and all parent links, and moves up exactly the children of nodes without a prompt text |
| KconfigMenuTree.DissolvedBelow | riscv32-cpu/simulator/tools/kconfig/menu.c:575-584 | moving up the children of some nodes, at all levels, leaves nothing below these and below every other node what was there |
| KconfigSubmenus.SubmenusUnique | riscv32-cpu/simulator/tools/kconfig/menu.c:460-505 | the tree as parsed and the rule which entries belong below a symbol determine the tree with all submenus |
| KconfigMenuInherit.InheritProps | riscv32-cpu/simulator/tools/kconfig/menu.c:362-421 | the loop over the properties of an entry gives each its condition, in order, and records every select and imply with it |
| KconfigMenuInherit.PropagateToChildren | riscv32-cpu/simulator/tools/kconfig/menu.c:350-422 | every child and its properties inherit the parent's dependency, once each and in order; nothing else changes |
| KconfigMenuInherit.BelowKeeps | riscv32-cpu/simulator/tools/kconfig/menu.c:306-585 | finalizing a row of entries changes the dependencies of nothing but what is below them |
| KconfigMenuInherit.DirectLast | riscv32-cpu/simulator/tools/kconfig/menu.c:504 | it does not matter that a symbol gets its direct dependency after the entries behind it are finalized |
| KconfigMenuMeaning.FinalInfo | riscv32-cpu/simulator/tools/kconfig/menu.c:306-585 | after finalization every entry and property has inherited, exactly once, what is handed down to it in the tree as it was parsed, whatever submenus were made on the way |
| KconfigMenuMeaning.PropagatedValue | riscv32-cpu/simulator/tools/kconfig/menu.c:350-432 | the final dependency of every entry is worth the minimum of all dependencies written on the path to it; below a choice the choice takes the place of what is above |
| KconfigMenuMeaning.PropagatedMeaning | riscv32-cpu/simulator/tools/kconfig/menu.c:350-432 | with no constants but y, m and n that holds under every legal assignment |
| KconfigMenuMeaning.DirectExact | riscv32-cpu/simulator/tools/kconfig/menu.c:504 | every symbol without children gets its final dependency as a direct dependency, once, and nothing else is added |
| KconfigMenuMeaning.LogExact | riscv32-cpu/simulator/tools/kconfig/menu.c:412-420 | what is recorded of selects and implies is exactly what the nodes have, with final conditions, each as often as it is written |
| KconfigMenuMeaning.SubmenuMeaning | riscv32-cpu/simulator/tools/kconfig/menu.c:460-502 | every entry of an automatic submenu implies the symbol or its prompt's condition, with m counting as y in every symbol, and plainly where the entry is y or negates nothing that is m |
| KconfigMenuSelects.FinalProperty | riscv32-cpu/simulator/tools/kconfig/menu.c:395-406 | the final condition of every property is worth its own and all dependencies written on the path: as it is if the symbol is tristate or no symbol is m, and otherwise after promotion of m |
| KconfigMenuSelects.FinalPrompt | riscv32-cpu/simulator/tools/kconfig/menu.c:362-406 | the final condition of a prompt is worth its own and all dependencies written on the path, up to promotion of m in the same cases; without a prompt nothing changes |
| KconfigMenuSelects.TermRecorded | riscv32-cpu/simulator/tools/kconfig/menu.c:412-420 | every select and imply that is written anywhere in the tree reaches the symbol it names, with its final condition |
| KconfigMenuSelects.WrittenSelectHonoured | riscv32-cpu/simulator/tools/kconfig/menu.c:412-420 | with the reverse dependencies that finalization records, a selected symbol is at least the minimum of the selecting one, the condition of the select and every dependency above it, if the selecting one is tristate or no tristate symbol is m; in any case it is not n if none of these is, and a bool is then y |
| KconfigMenuSelects.SelectWeakened | riscv32-cpu/simulator/tools/kconfig/menu.c:400-420 | otherwise it can be less: a bool A=y with `select B if FOO!=n` and FOO=m leaves the tristate B at m in every solution, although the condition is y |
| KconfigMenuSelects.WeakSolved | riscv32-cpu/simulator/tools/kconfig/symbol.c:325-467 | the table of that input has a solution |
| KconfigMenuSelects.WrittenImplyHonoured | riscv32-cpu/simulator/tools/kconfig/menu.c:416-420 | an implied symbol is at least the minimum of the implying one, the condition of the imply, every dependency above it and its own direct dependencies, under the same condition, unless the user decides about it; in any case it is not n if none of these is |
| KconfigMenuSelects.DirectValue | riscv32-cpu/simulator/tools/kconfig/menu.c:504 | the direct dependency that is or-ed together over all entries of a symbol is worth the maximum of those that have one, and y only if none has one |
| KconfigMenuSelects.DirectIntended | riscv32-cpu/simulator/tools/kconfig/menu.c:504 | it is worth the maximum over all entries if and only if no entry is without a dependency, or none has one, or one that has one is y |
| KconfigMenuSelects.DirectCounterexample | riscv32-cpu/simulator/tools/kconfig/menu.c:504 | an entry without a dependency and one that depends on A, which is n: the direct dependency is n |
| KconfigMenuSelects.DirectAnyOrder | riscv32-cpu/simulator/tools/kconfig/menu.c:504 | its value does not depend on the order of the entries |
| KconfigMenuSelects.DirectCovers | riscv32-cpu/simulator/tools/kconfig/menu.c:504 | for the finalized tree it is at least all that is written on the path to any entry without children that has a dependency |
| KconfigMenuFinalize.FinalizeChildren | riscv32-cpu/simulator/tools/kconfig/menu.c:427-432 | the loop that finalizes the children keeps the preorder, although each step may take later siblings away, finalizes every entry once, in order, and makes all their submenus |
| KconfigMenuFinalize.CollectSubmenu | riscv32-cpu/simulator/tools/kconfig/menu.c:460-496 | exactly the entries up to the first one that does not belong below the symbol are taken and finalized |
| KconfigMenuFinalize.CloseSubmenu | riscv32-cpu/simulator/tools/kconfig/menu.c:498-502 | three assignments turn the row up to the last taken entry into the submenu of the symbol |
| KconfigMenuFinalize.MakeSubmenu | riscv32-cpu/simulator/tools/kconfig/menu.c:433-505 | the preorder is kept, all entries of the submenu belong below the symbol, the entry after it does not, and the symbol gets its direct dependency |
| KconfigMenuFinalize.Finalize | riscv32-cpu/simulator/tools/kconfig/menu.c:306-585 | for every tree: the same nodes in the same preorder, parent and sibling links consistent; in the tree before flattening every symbol parsed without children has below it the entries that follow as far as they belong there, and the next entry does not; flattening then moves up exactly the children of nodes without a prompt text; what is recorded is what finalizing the parsed tree without any restructuring records |
| KconfigWrite.Climb | riscv32-cpu/simulator/tools/kconfig/confdata.c:900-911 | the inner loop ends at the next entry in order, or at the root, having closed the menus that it leaves |
| KconfigWrite.Walk | riscv32-cpu/simulator/tools/kconfig/confdata.c:868-912 | the walk over list, next and parent links ends, visits every node exactly once in preorder, and writes the headings, settings, end comments and empty lines of the recursive description |
| KconfigWrite.EverySettingOnce | riscv32-cpu/simulator/tools/kconfig/confdata.c:880-891 | each symbol with a value to write has exactly one line, however many entries it has, and no other symbol has one |
| KconfigWrite.WriteInOrder | riscv32-cpu/simulator/tools/kconfig/confdata.c:868-912 | apart from end comments and empty lines the file depends only on the preorder, not on the nesting |
| KconfigLines.FileAround | riscv32-cpu/simulator/tools/kconfig/confdata.c:868-912 | around every node the file has five parts: before it only lines of earlier nodes and of the menus around it; its own line, a heading if it is a visible menu and a setting if its symbol is to be written and was not yet; only lines of nodes below it; the end comment of a visible menu with children; only lines of later nodes and end comments of the menus around it |
| KconfigLines.MenuLines | riscv32-cpu/simulator/tools/kconfig/confdata.c:871-879 | exactly the visible menus have a heading, one each, and exactly those with children an end comment, one each |
| KconfigLines.EmptyLines | riscv32-cpu/simulator/tools/kconfig/confdata.c:884-888 | an empty line stands exactly between an end comment and a setting |
| KconfigWrite.FinalizeAndWrite | riscv32-cpu/simulator/tools/kconfig/confdata.c:868-912 | writing after finalization visits the nodes, and writes headings and settings, in the order in which they were parsed; what is written is the flattened tree with all submenus |
| KconfigEscape.EscapedSize | riscv32-cpu/simulator/tools/kconfig/symbol.c:882-894 | the computed buffer size is that of the quoted string and its terminator, exactly |
| KconfigEscape.EscapeStringValue | riscv32-cpu/simulator/tools/kconfig/symbol.c:875-916 | the buffer is filled to its last byte with the quoted string; no write goes beyond it |
| KconfigEscape.UnescapeInPlace | riscv32-cpu/simulator/tools/kconfig/confdata.c:264-275 | on every terminated buffer the loop ends and leaves what the text stands for, or reports a missing quote; nothing outside the text and its terminator changes |
| KconfigEscape.UnescapeSpells | riscv32-cpu/simulator/tools/kconfig/confdata.c:264-275 | a text is read as a string exactly if it is one of its spellings followed by a closing quote |
| KconfigEscape.RoundTrip | riscv32-cpu/simulator/tools/kconfig/confdata.c:264-275 | reading the quoted form of any string gives the string, whatever follows it |
| KconfigEscape.SetStringValue | riscv32-cpu/simulator/tools/kconfig/confdata.c:261-288 | without an opening quote nothing is stored, without a closing one it is an error, otherwise the text's meaning is stored |
| KconfigEscape.WriteAndRead | riscv32-cpu/simulator/tools/kconfig/symbol.c:875-916 | a value written by the one loop and read by the other is the same |
| KconfigSymbolDeps.DepChecker.CheckDeps | riscv32-cpu/simulator/tools/kconfig/symbol.c:1250-1279 | the search keeps its colours, stack and order; a symbol it returns lies on a real cycle that is on the stack |
| KconfigSymbolDeps.DepChecker.Visit | riscv32-cpu/simulator/tools/kconfig/symbol.c:1270-1274 | the same for a symbol that is met for the first time |
| KconfigSymbolDeps.DepChecker.Report | riscv32-cpu/simulator/tools/kconfig/symbol.c:1041-1128 | the part of the stack that is printed is a cycle that begins with the reported symbol |
| KconfigSymbolDeps.DepChecker.CheckExprDeps | riscv32-cpu/simulator/tools/kconfig/symbol.c:1130-1162 | all symbols of the expression are checked unless a cycle is reported |
| KconfigSymbolDeps.DepChecker.CheckSymDeps | riscv32-cpu/simulator/tools/kconfig/symbol.c:1165-1211 | all symbols that a symbol depends on are checked unless a cycle is reported |
| KconfigSymbolDeps.NoCycleReachable | riscv32-cpu/simulator/tools/kconfig/symbol.c:1250-1279 | while no cycle was reported, no path from a checked symbol meets a symbol twice |
| KconfigSymbolDeps.CheckAll | riscv32-cpu/simulator/tools/kconfig/parser.y:514-519 | the number of errors is zero if and only if the dependency graph has no cycle; then it has a topological order |
| KconfigSymbolEval.ComputeCongruence | riscv32-cpu/simulator/tools/kconfig/symbol.c:325-467 | the value of a symbol depends only on the symbols that the dependency check walks over |
| KconfigSymbolValue.DepsExact | riscv32-cpu/simulator/tools/kconfig/symbol.c:1165-1211 | the dependency check walks exactly the three collected dependencies, the conditions of all properties but selects and implies, and the values of defaults |
| KconfigSymbolValue.ValueLaw | riscv32-cpu/simulator/tools/kconfig/symbol.c:325-467 | in every solution a symbol has: the user value within its greatest prompt condition if there is one and that is not n; otherwise the first default whose condition is not n, joined with the condition, and if implied at least that but at most the direct dependency; and never less than the reverse dependency; m becomes y for a symbol that cannot be m |
| KconfigSymbolValue.ValueDetermined | riscv32-cpu/simulator/tools/kconfig/symbol.c:177-238 | there always is such a prompt condition and such a default |
| KconfigSymbolValue.DefaultGives | riscv32-cpu/simulator/tools/kconfig/symbol.c:83-93 | without user value and imply the first default whose condition is not n gives the value, joined with its condition |
| KconfigSymbolValue.NoDefaultGives | riscv32-cpu/simulator/tools/kconfig/symbol.c:83-93 | if the conditions of all defaults are n only the reverse dependency is left |
| KconfigSymbolValue.VisibleLaw | riscv32-cpu/simulator/tools/kconfig/symbol.c:177-208 | a symbol is visible exactly if one of its prompts is, and m exactly if it can be m, a prompt is m and none is y |
| KconfigSymbolValue.RevDepExact | riscv32-cpu/simulator/tools/kconfig/menu.c:412-415 | a reverse dependency is the greatest of the selectors joined with their conditions, and n without any |
| KconfigSymbolEval.PlainSolves | riscv32-cpu/simulator/tools/kconfig/symbol.c:325-467 | recursive evaluation without memory satisfies every symbol's equation |
| KconfigSymbolEval.SolutionUnique | riscv32-cpu/simulator/tools/kconfig/symbol.c:325-467 | on an acyclic graph there is only one valuation that does |
| KconfigSymbolEval.SolutionLegal | riscv32-cpu/simulator/tools/kconfig/symbol.c:325-467 | evaluation never gives a boolean the value m, nor anything m without modules |
| KconfigSymbolMemo.Evaluator.CalcValue | riscv32-cpu/simulator/tools/kconfig/symbol.c:325-467 | the memoised evaluator stores the value of the unique solution |
| KconfigSymbolMemo.Evaluator.CalcVisibility | riscv32-cpu/simulator/tools/kconfig/symbol.c:177-238 | visibility, direct, reverse and implied dependencies are those of the unique solution |
| KconfigSymbolMemo.Evaluator.CalcExpr | riscv32-cpu/simulator/tools/kconfig/expr.c:1030-1102 | evaluation through the memory gives the value of the expression in the unique solution |
| KconfigSymbolMemo.EvaluateInOrder | riscv32-cpu/simulator/tools/kconfig/symbol.c:325-467 | whatever the order of requests, every symbol gets the value of evaluation without memory |
| KconfigSymbolEval.RevDepCovers | riscv32-cpu/simulator/tools/kconfig/menu.c:412-415 | a reverse dependency is at least the selector joined with its condition, for each select |
| KconfigSymbolEval.SelectHonoured | riscv32-cpu/simulator/tools/kconfig/symbol.c:220-228 | a selected symbol is at least the minimum of selector and condition; a boolean is then y |
| KconfigSymbolEval.ImplyHonoured | riscv32-cpu/simulator/tools/kconfig/symbol.c:373-413 | an implied symbol whose user value does not apply is at least the minimum of the implying one, the condition and its direct dependencies |
| KconfigSymbolEval.UserOverImply | riscv32-cpu/simulator/tools/kconfig/symbol.c:373-413 | if the user value applies, the symbol is that value within visibility and reverse dependencies, whatever implies it |
| KconfigSymbolEval.UserIsLocal | riscv32-cpu/simulator/tools/kconfig/symbol.c:499-533 | a user value changes no symbol that comes before it in the order |
| KconfigSymbolEval.SetThenCompute | riscv32-cpu/simulator/tools/kconfig/symbol.c:373-413 | a visible symbol's user value is what the next evaluation computes if and only if it lies between the reverse dependencies and the upper bound and is not m for a boolean |
| KconfigSymbolEval.CurrentValueNeedNotStick | riscv32-cpu/simulator/tools/kconfig/symbol.c:507-533 | a symbol that is y by default and whose prompt is m accepts y, its current value, and is m next |
| KconfigSymbolEval.AcceptedValueSticks | riscv32-cpu/simulator/tools/kconfig/symbol.c:480-497 | a value that passes the range test is exactly the value computed next |
| KconfigSymbolValue.RangeOffersChoice | riscv32-cpu/simulator/tools/kconfig/symbol.c:480-497 | a symbol that accepts any value accepts what it is visible for and what selects ask for, which differ, and exactly what lies between them, for a bool without m |
| KconfigSymbolMemo.Evaluator.SetTristateValue | riscv32-cpu/simulator/tools/kconfig/symbol.c:499-533 | when a value is accepted and what is invalidated; the memory is stale exactly if the current value was accepted for a visible symbol and does not stick |
| Int64Div.SignTest | riscv32-cpu/abstract-machine/klib/src/int64.c:605-614 | the sign bit of d - r - 1 tells r >= d whenever r is below 2d, also for d above 2^63 if r is then at least 2^63, which IterateFits supplies in the loop |
| Int64Div.Step | riscv32-cpu/abstract-machine/klib/src/int64.c:598-615 | one iteration shifts the remainder and quotient pair and subtracts the divisor if it fits |
| Int64Div.Iterate | riscv32-cpu/abstract-machine/klib/src/int64.c:597-616 | the partial remainder and quotient stay those of the leading bits of the dividend |
| Int64Div.IterateFits | riscv32-cpu/abstract-machine/klib/src/int64.c:597-616 | the shifted remainder fits into 64 bits, and has the top bit if the divisor is above 2^63 |
| Int64Div.ShiftSubtract | riscv32-cpu/abstract-machine/klib/src/int64.c:597-619 | the loop divides |
| Int64Div.Setup | riscv32-cpu/abstract-machine/klib/src/int64.c:502-588 | for every shift count the four words are the quotient and remainder by the power of two |
| Int64Div.LowPower | riscv32-cpu/abstract-machine/klib/src/int64.c:516-526 | division by a 32-bit power of two |
| Int64Div.HighOnlyDivisor | riscv32-cpu/abstract-machine/klib/src/int64.c:446-507 | division when the low word of the divisor is zero |
| Int64Div.LowDivisor | riscv32-cpu/abstract-machine/klib/src/int64.c:510-558 | division by a 32-bit divisor |
| Int64Div.HighDivisor | riscv32-cpu/abstract-machine/klib/src/int64.c:559-589 | division by a divisor with both words |
| Int64Div.Udivmoddi4 | riscv32-cpu/abstract-machine/klib/src/int64.c:412-620 | for every 64-bit a and every b other than 0 the results are a / b and a % b |
| Int64Signed.TruncDivides | riscv32-cpu/abstract-machine/klib/src/int64.c:355-390 | the truncating quotient and remainder satisfy a = q*b + r, abs(r) < abs(b), and r has the sign of a |
| Int64Signed.Divdi3 | riscv32-cpu/abstract-machine/klib/src/int64.c:355-365 | truncating division, if and only if it is not the minimum value divided by -1; then it wraps to the minimum value |
| Int64Signed.Moddi3 | riscv32-cpu/abstract-machine/klib/src/int64.c:379-390 | the truncating remainder for every b other than 0 |
| Int64Signed.Divmoddi4 | riscv32-cpu/abstract-machine/klib/src/int64.c:369-375 | agrees with both |
| Int64Signed.Clzsi2 | riscv32-cpu/abstract-machine/klib/src/int64.c:622-655 | the branch-free count is the number of leading zeros of a nonzero word |
| Int64Signed.Ctzsi2 | riscv32-cpu/abstract-machine/klib/src/int64.c:657-695 | the branch-free count is the number of trailing zeros of a nonzero word |
| Int64Signed.Clzdi2 | riscv32-cpu/abstract-machine/klib/src/int64.c:711-717 | the same for leading zeros of 64 bits |
| Int64Signed.Ctzdi2 | riscv32-cpu/abstract-machine/klib/src/int64.c:703-709 | the same for trailing zeros of 64 bits |
| CoreList.Merge | riscv32-cpu/software-test/coremark/core_list_join.c:532-577 | the merge of two runs relinks exactly their nodes, in stable order if the comparator orders them, and leaves no node uncompared if there are two or more |
| CoreList.Pass | riscv32-cpu/software-test/coremark/core_list_join.c:509-583 | one pass doubles the length of the sorted runs |
| CoreList.SortPasses | riscv32-cpu/software-test/coremark/core_list_join.c:505-591 | the passes end with one run |
| CoreList.MergeSort | riscv32-cpu/software-test/coremark/core_list_join.c:499-595 | for any comparator the result links exactly the original nodes; it is sorted and stable for one that orders by a key, also if an item gets its key only when it is first compared; what the comparator keeps is kept, and on two or more nodes every node has been compared |
| CoreListOrder.SortedUnique | riscv32-cpu/software-test/coremark/core_list_join.c:499-595 | two sorted arrangements of the same nodes are the same |
| CoreBench.IdxKeeps | riscv32-cpu/software-test/coremark/core_list_join.c:133-142 | comparing by idx orders by idx, keeps the high data byte and regenerates the low one |
| CoreBench.ComplexKeeps | riscv32-cpu/software-test/coremark/core_list_join.c:120-126 | comparing by computed values keeps the high data byte, whatever is computed |
| CoreBench.ComplexSettles | riscv32-cpu/software-test/coremark/core_list_join.c:69-126 | comparing by computed values orders by the seven bits that it leaves in both items, sets bit 7 in both, and never changes them again |
| CoreBench.SortByValue | riscv32-cpu/software-test/coremark/core_list_join.c:205-206 | after the sort by computed values every node has bit 7 set and the cached seven bits ascend |
| CoreBench.CalcKeepsHigh | riscv32-cpu/software-test/coremark/core_list_join.c:69-114 | `calc_func` caches its result in the low data byte only |
| CoreBench.CalcRuns | riscv32-cpu/software-test/coremark/core_list_join.c:69-114 | an item of type 0 or 1 without its value takes one run of a benchmark and its low seven bits, any other its own; the checksum takes the whole result; an item that has its value costs nothing |
| CoreBench.Find | riscv32-cpu/software-test/coremark/core_list_join.c:434-449 | returns the first node with the idx or the data byte, or NULL if there is none |
| CoreBench.Reverse | riscv32-cpu/software-test/coremark/core_list_join.c:464-476 | reverses the list in place |
| CoreBench.CacheNext | riscv32-cpu/software-test/coremark/core_list_join.c:189-195 | moves the node after the found one behind the head |
| CoreBench.Remove | riscv32-cpu/software-test/coremark/core_list_join.c:376-389 | unlinks the next node and swaps the data pointers |
| CoreBench.UndoRemove | riscv32-cpu/software-test/coremark/core_list_join.c:407-419 | puts the node back and swaps the data pointers again |
| CoreBench.RemoveAndUndo | riscv32-cpu/software-test/coremark/core_list_join.c:207-221 | removing and putting back leaves list and data as they were |
| CoreBench.FindRounds | riscv32-cpu/software-test/coremark/core_list_join.c:173-199 | each round looks for its data byte and the index counted up so far, finds the first match in the list as the rounds before left it, reverses the list and moves the node behind the match to the second place; together they permute the nodes |
| CoreBench.Restore | riscv32-cpu/software-test/coremark/core_list_join.c:223 | sorting by idx brings back the original order and regenerates every low data byte |
| CoreBench.BenchList | riscv32-cpu/software-test/coremark/core_list_join.c:158-235 | for three or more nodes with increasing idx and equal data bytes the list, its order and its data are the same afterwards, whatever `calc_func` computes |
| CoreCrc.Crcu8Step | riscv32-cpu/software-test/coremark/core_util.c:170-186 | one round of the loop is one division step by the reflected polynomial 0xA001 |
| CoreCrc.Crcu8 | riscv32-cpu/software-test/coremark/core_util.c:164-188 | eight such steps, low bit first |
| CoreCrc.ByteAtOnce | riscv32-cpu/software-test/coremark/core_util.c:164-188 | the eight bits of a byte enter lowest first, at their own places: adding the byte to the checksum and then dividing eight times is the same |
| CoreCrc.Crcu16 | riscv32-cpu/software-test/coremark/core_util.c:189-195 | the two bytes, low byte first |
| CoreCrc.Crcu32 | riscv32-cpu/software-test/coremark/core_util.c:196-202 | the four bytes, low byte first |
| CoreCrc.BytesLinear | riscv32-cpu/software-test/coremark/core_util.c:164-202 | the checksum is linear over exclusive or in data and start value |
| CoreCrc.BytesInjective | riscv32-cpu/software-test/coremark/core_util.c:164-202 | for fixed data, different start values give different checksums |
| CoreState.RunIsKind | riscv32-cpu/software-test/coremark/core_state.c:216-330 | after a text the machine is in a state exactly if the text is of that state's kind, for all states but INVALID |
| CoreState.Recognises | riscv32-cpu/software-test/coremark/core_state.c:216-330 | INT, FLOAT and SCIENTIFIC are exactly sign? digit+, sign? digit* . digit*, and a float with [eE] [+-] digit+ |
| CoreState.InvalidIsDead | riscv32-cpu/software-test/coremark/core_state.c:216-330 | INVALID exactly if no accepted text starts with what was read |
| CoreScan.CountedOnce | riscv32-cpu/software-test/coremark/core_state.c:216-330 | within a token no transition counter goes up twice, and that of SCIENTIFIC never does |
| CoreScan.CountTextTallies | riscv32-cpu/software-test/coremark/core_state.c:216-330 | each 32-bit counter goes up, modulo 2^32, by the number of times its state is left |
| CoreScan.TallyMeans | riscv32-cpu/software-test/coremark/core_state.c:216-330 | a state's counter goes up exactly if some byte leaves that state, that of INVALID exactly if the text is invalid from its first byte or after its exponent |
| CoreScan.Switch | riscv32-cpu/software-test/coremark/core_state.c:231-326 | one pass of the switch: the next state and the counters |
| CoreScan.Transition | riscv32-cpu/software-test/coremark/core_state.c:216-330 | reads one token: up to a comma, the end or the first invalidating byte; at least one byte if there is one |
| CoreScan.TokenMeaning | riscv32-cpu/software-test/coremark/core_state.c:216-330 | the state a token ends in is that of its text; INVALID means the shortest prefix that no number extends |
| CoreScan.TakesUnique | riscv32-cpu/software-test/coremark/core_state.c:216-330 | there is only one such token |
| CoreScan.Scan | riscv32-cpu/software-test/coremark/core_state.c:65-75 | the scan loop ends for every terminated buffer, with a token list that covers the text |
| CoreScan.ReadsAll | riscv32-cpu/software-test/coremark/core_state.c:65-75 | the tokens and their commas, put together, are the text |
| CoreDamage.Corrupt | riscv32-cpu/software-test/coremark/core_state.c:77-83 | every step-th byte of the block that is not a comma is changed, and nothing else |
| CoreDamage.RestoredIff | riscv32-cpu/software-test/coremark/core_state.c:98-104 | the second damage undoes the first if and only if, for all bytes hit that were no comma, the seeds are equal and the byte did not become a comma |
| CoreDamage.NotRestored | riscv32-cpu/software-test/coremark/core_state.c:98-104 | a full stop with seed 2 becomes a comma and is lost, although the seeds are equal |
| CoreDamage.Checksum | riscv32-cpu/software-test/coremark/core_state.c:105-109 | the counters go into the checksum state by state, low byte first |
| CoreDamage.CounterOrder | riscv32-cpu/software-test/coremark/core_state.c:105-109 | the sixteen counters in their order: START, INVALID, S1, S2, INT, FLOAT, EXPONENT, SCIENTIFIC, for each the tokens that ended there and then how often it was left |
| CoreDamage.BenchState | riscv32-cpu/software-test/coremark/core_state.c:44-111 | both scans cover their texts, the result is the checksum of the counters added up over both, and the buffer is restored under exactly that condition |

## Left out

- Choice groups: the choice branches of the evaluator and of the dependency check, and the part of
  `menu_finalize` that marks choice values and adds the choice to their dependencies. A choice node is
  in the menu tree, and its children inherit its symbol as their dependency.
- Int, hex and string symbols in the evaluator; their text is a parameter of every assignment, and so
  is the C library's number reader.
- The value of MODULES is settled before evaluation and is a parameter.
- KconfigMenuFinalize.Finalize: what the pass records of nodes and symbols (dependencies, conditions of
  properties, what is or-ed to reverse, implied and direct dependencies) is a value that is handed from call
  to call, keyed by node, and not fields of the nodes. Types set on choice values, warnings and the reverse
  dependency of non-optional choices are not modelled.
- KconfigMenuMeaning.PropagatedValue: leaves out that the values of a tristate choice that are not tristate
  also get the choice being y as a dependency, after they are finalized.
- Sharing and reuse of expression nodes: trees are values, so aliasing between expressions is not
  captured. `trans_count` is modelled in duplicate elimination, where it decides the loop, and not in
  the cancellation.
- Expressions of type list and range, which no modelled pass reaches; `expr_trans_compare` for constants
  other than n, which has no caller.
- KconfigWrite.Walk: takes which menus are visible and which symbols have a value as parameters, and
  leaves out the heading of the file and the text of each line.
- KconfigEscape.SetStringValue: assumes that any string is valid for a string symbol, as
  `sym_string_valid` does.
- CoreBench.BenchList: leaves out the number that the benchmark returns.
- CoreDamage.BenchState: asks that the damaged buffer still has a terminator, without which the second scan
  would read beyond it.
- CoreBench.CalcFunc: takes the results of the state and matrix benchmarks as arbitrary.
- CoreScan.Transition: asks that the counters and the buffer do not overlap.
- `core_list_init`, `core_init_state` and the matrix benchmark: straightforward loops.
- Memory release and out-of-memory exits, the user interfaces, file handling, the lexer and parser, the
  preprocessor, the hardware and its simulator, and the rest of the C library.
