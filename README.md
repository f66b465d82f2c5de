# sanctuary-def core, modelled in Dafny

sanctuary-def (`index.js`) defines curried functions whose arguments and return
values are checked at run time against a type signature. The signature is
written with type descriptors drawn from an environment. This project models
the type checker at the centre of `$.create`:

- **The descriptor algebra** (`types.dfy`). It covers the nine kinds of
  descriptor, their membership tests, `BinaryType.xprod`, the canonical text
  that ENUM and RECORD descriptors are compared by, `rejectAny` and `equalTypes`.
- **Type inference** (`inference.dfy`). It covers `commonTypes`,
  `filterTypesByValues`, `_determineActualTypes` and its strict and loose
  variants, which drop INCONSISTENT.
- **Unification** (`unification.dfy`). It covers `_satisfactoryTypes` and
  `satisfactoryTypes`. They narrow the per-call map from type-variable name to
  candidate types and check type-class constraints.
- **The curry dispatcher and `def`** (`curry.dfy`). It covers:
  - the arity check;
  - placeholder-aware filling of the argument array;
  - a fresh copy of the type-variable map on every call;
  - a single invocation of the implementation on saturation;
  - the check of the returned value;
  - `def`'s arity ceiling of nine;
  - the recursive environment-membership check.

The list and dictionary helpers that the code is built from are in `lists.dfy`
and `dicts.dfy`. The JavaScript runtime is in `hosts.dfy`: a value's `$$type`
tag, `show`, the leaf predicates, the child extractors `_1`/`_2`, own-property
lookup, `== null` and type-class tests. These are abstract functions over an
opaque `Value`, which a `Runtime` record carries.

The model follows the source's own form:
- The descriptor recursions (`rejectAny`, `equalTypes`, `xprod`,
  `_determineActualTypes`) are functions.
- Every loop of the source but one is a method proved against the function that
  the rest of the model uses: `all`, `any`, `chain`, `filter`, `map`, `range`,
  `keys`, the record test, the `$1s`/`$2s` loop of `commonTypes`, the constraint
  loop, the map copy, the argument loop of `curry` and
  `assertExpectedTypesInEnvironment`. The exception is the loop of
  `RecordType`'s `toString` (index.js:410-419), which `Types.ShowType` renders
  as a sequence of field texts joined by `Join`.
- The type-variable map is a class whose method updates it in place.
- The argument array of a call is a fresh `array`.
- The implementation is an object that logs the argument arrays it is applied to.

The corrected `commonTypes` of the first finding below is what the rest of the
model uses. Likewise, the corrected return position of the second finding
(`Curry.ReturnFailure`, the index `|sig.args|` of the return type) is what
`Curry.Call` and `Curry.Invoke` report, not the `_indexes.length` that index.js:1192
computes.

The check of the return value (`index.js:1195-1196`) runs the full
`_satisfactoryTypes`, constraint tests included, so a returned value bound to a
constrained type variable is tested against its type classes again.

A container respecialised by `UnaryType.from(t)` or `BinaryType.from(t)` takes
`t`'s whole test as its predicate (`TestOf(t)`), so the checks of `t`'s old
children stay in force. `from` is applied at the same places as in the source:
`xprod`, `rejectAny`, the candidates of `commonTypes`, the inference of
container values and the UNARY/BINARY cases of `_satisfactoryTypes`.

## Model

| member | source | states |
|---|---|---|
| Lists.All | index.js:36-41 | the loop returns true exactly when every element satisfies the predicate |
| Lists.Any | index.js:47-52 | the loop returns true exactly when some element satisfies the predicate |
| Lists.Chain | index.js:55-61 | the loop yields the concatenation of `f(x)` over the list, in order |
| Lists.ChainedMembers | index.js:55-61 | an element is in `chain(xs, f)` exactly when it is in `f(x)` for some element `x` |
| Lists.ChainedEmpty | index.js:55-61 | `chain` is empty exactly when every `f(x)` is empty |
| Lists.ChainedAppend | index.js:55-61 | `chain` of a concatenation is the concatenation of the chains |
| Lists.Filter | index.js:73-81 | the loop yields the elements that satisfy the predicate, in order |
| Lists.Filtered | index.js:73-81 | the result is no longer than the input, and holds only input elements that satisfy the predicate, including every such element |
| Lists.FilteredIsSubsequence | index.js:73-81 | `filter` keeps the surviving elements in their original order |
| Lists.FilteredAppend | index.js:73-81 | filtering one more element appends it exactly when it passes |
| Lists.FilteredNone | index.js:73-81 | when no element passes, nothing is kept |
| Lists.FilteredAll | index.js:73-81 | when every element passes, the list is kept whole |
| Lists.SubsequenceSnocBoth | index.js:78 | appending the same element to both lists preserves the ordered-subsequence relation |
| Lists.SubsequenceSnocRight | index.js:76 | appending to the longer list preserves the ordered-subsequence relation |
| Lists.SubsequenceMembers | index.js:73-81 | every element of an ordered subsequence is an element of the original |
| Lists.Map | index.js:100-104 | the loop yields `f` of each element, position by position |
| Lists.Or | index.js:107 | `or(xs, ys)` is `xs` unless `xs` is empty, then `ys` |
| Lists.Range | index.js:133-137 | the loop yields `start, ..., stop - 1` |
| Lists.IntervalShape | index.js:133-137 | `range(start, stop)` has `stop - start` elements (none when `stop <= start`), the `i`-th being `start + i` |
| Dicts.BelowIrreflexive | index.js:96 | the string order used by `sort` is irreflexive |
| Dicts.BelowTransitive | index.js:96 | the string order used by `sort` is transitive |
| Dicts.BelowTotal | index.js:96 | any two distinct strings are ordered one way or the other |
| Dicts.InsertFacts | index.js:96 | inserting a new key into a strictly sorted list keeps it strictly sorted and adds exactly that key |
| Dicts.SortFacts | index.js:96 | sorting distinct keys gives a strictly increasing permutation of them |
| Dicts.SortKeepsMembers | index.js:96 | sorting introduces no new keys |
| Dicts.KeysOf | index.js:95 | the own keys of an object, one per entry, in entry order |
| Dicts.Keys | index.js:93-97 | the loop pushes the own keys and sorts them; for an object they are then strictly increasing, and they are exactly its own keys |
| Dicts.SortedKeysFacts | index.js:93-97 | `keys` lists every own key once, in increasing order |
| Dicts.SortedValues | index.js:679-692 | `map(keys($1s), k => $1s[k])` has one value per key, and its `i`-th value is the one stored under the `i`-th sorted key |
| Dicts.SortedValuesMembers | index.js:679-692 | the values listed are exactly the values stored under the own keys |
| Dicts.PutFacts | index.js:676 | `obj[k] = v` adds `k` to the keys, stores `v` under it, leaves every other key's value alone, and keeps keys distinct |
| Dicts.IndexOf | index.js:177 | `indexOf` is -1 exactly when the character is absent, and otherwise is its first position |
| Dicts.StripNamespace | index.js:177 | `stripNamespace` leaves a name without `/` alone, and otherwise drops everything up to and including the first `/` |
| Types.RecordTest | index.js:402-409 | the record test loop answers exactly `Test` of the RECORD descriptor: not nullish, and every field is an own property that passes its descriptor |
| Types.Type0 | index.js:446-448 | `type0(tag)` is a nullary type named `tag` |
| Types.Type0Accepts | index.js:439-448 | `type0(tag)` accepts exactly the values whose `$$type` is `tag` |
| Types.EnumType | index.js:357-362 | an enumeration keeps one tag and one `show` text per member, in order |
| Types.EnumTypeAccepts | index.js:363-371 | a value belongs to an enumeration exactly when its tag is some member's tag and its `show` text is some member's `show` text |
| Types.Test | index.js:248-409 | `t.test(x)` for the nine kinds of descriptor; defined by its body, and its properties are stated by `Type0Accepts`, `EnumTypeAccepts`, `UnaryFromAccepts`, `BinaryFromAccepts`, `RenewedAccepts` and `RecordTest` |
| Types.ShowType | index.js:243-419 | the `toString` text of each descriptor; defined by its body, and compared by `EqualTypes` for ENUM and RECORD descriptors |
| Types.UnaryOver | index.js:313-315 | `map(cs, UnaryType.from(t))` respecialises `t` over each child, position by position: same name and extractor, `t`'s whole test as predicate |
| Types.UnaryFromAccepts | index.js:294-315 | a type made by `UnaryType.from(t)` accepts exactly the values `t` accepts whose elements also pass the new child, so `t`'s old element check still holds |
| Types.BinaryFromAccepts | index.js:319-344 | a type made by `BinaryType.from(t)` accepts exactly the values `t` accepts whose children also pass the new children |
| Types.FromKeepsChildChecks | index.js:294-315 | `UnaryType.from(Array Number)(c)` accepts only arrays whose elements are Numbers, whatever `c` is |
| Types.XprodMembers | index.js:347-354 | `xprod` contains exactly the respecialisations of `t` by `BinaryType.from(t)` over one first child and one second child |
| Types.XprodLength | index.js:347-354 | `xprod` has `|$1s| * |$2s|` elements |
| Types.XprodSingletons | index.js:347-354 | `xprod` over one child each is the single respecialisation |
| Types.Xprod | index.js:347-354 | `BinaryType.xprod`; defined by its body, and its properties are stated by `XprodMembers`, `XprodLength` and `XprodSingletons` |
| Types.RejectAny | index.js:621-632 | `rejectAny`; defined by its body, and its result is stated by `RejectAnyResult` |
| Types.RejectAnyResult | index.js:621-632 | `rejectAny(t)` is `[]` when ANY occurs in the container spine of `t`, and otherwise the single copy that `from` rebuilds; it never returns ANY |
| Types.RenewedFacts | index.js:626-630 | that copy has the same kind, name and canonical text as `t`, is the very descriptor for non-containers, and is free of ANY when `t` is |
| Types.RenewedAccepts | index.js:626-630 | that copy accepts exactly the values `t` accepts |
| Types.RenewedEqual | index.js:626-630 | `equalTypes` gives the same answer for that copy as for `t`, against any descriptor |
| Types.EqualTypesRules | index.js:643-655 | INCONSISTENT on either side gives `loose`; otherwise UNKNOWN on either side gives true; nullary types are equal iff their names are; unary and binary types are equal iff names match and children are pairwise equal; a nullary type equals no other kind |
| Types.EqualTypesSymmetric | index.js:643-664 | `equalTypes` does not depend on operand order, with the throw for an ANY or VARIABLE first operand modelled as false |
| Types.EqualTypesStrictImpliesLoose | index.js:643-664 | strict equality implies loose equality |
| Types.EqualTypesReflexive | index.js:643-664 | a descriptor equals itself exactly when no ANY or VARIABLE (and, strictly, no INCONSISTENT) occurs in its container spine |
| Types.EqualTypes | index.js:643-664 | `equalTypes`; defined by its body, and its properties are stated by `EqualTypesRules`, `EqualTypesSymmetric`, `EqualTypesStrictImpliesLoose`, `EqualTypesReflexive` and `RenewedEqual` |
| Inference.Merged | index.js:679-692 | `or(values of $1s, [Unknown])` is the list of stored children when there is one, and `[Unknown]` alone otherwise |
| Inference.Gathered | index.js:674-677 | the `$1s` (or `$2s`) dictionary the loop builds; defined by its body, and its contents are stated by `GatheredKeys`, `GatheredValue` and `MergedOf` |
| Inference.GatheredStep | index.js:674-677 | one more step of the loop puts a child other than UNKNOWN under its key and otherwise leaves the dictionary alone |
| Inference.StoredMembers | index.js:674-692 | a child is among the listed values of the dictionary exactly when it is the last child other than UNKNOWN of its name |
| Inference.GatheredKeys | index.js:674-677 | the `$1s` (or `$2s`) dictionary has distinct keys, and its keys are exactly the names of the children other than UNKNOWN |
| Inference.GatheredValue | index.js:674-677 | the child stored under a name is the last child other than UNKNOWN with that name |
| Inference.MergedOf | index.js:674-692 | the merged children are, per name, the last child other than UNKNOWN with that name, or UNKNOWN alone when every child is UNKNOWN or missing |
| Inference.CommonTypes | index.js:667-705 | the loop over the flattened types fills `$1s`/`$2s` and the method returns `Common`: the candidates (for a container head, `UnaryType.from`/`BinaryType.from` of that head over the merged children) that every input set holds up to `equalTypes` |
| Inference.CommonOfEmpties | index.js:668-669 | `commonTypes` returns `[]` when every input set is empty |
| Inference.CommonSound | index.js:698-704 | every type returned is `equalTypes`-equal to a member of every input set; for a UNARY/BINARY head it is that head respecialised by `from`, with the head's whole test as predicate, otherwise one of the input types |
| Inference.CommonComplete | index.js:698-704 | every candidate equal to a member of every input set is returned |
| Inference.Common | index.js:667-705 | the corrected `commonTypes`; defined by its body, and its result is stated by `CommonOfEmpties`, `CommonSound`, `CommonComplete` and the loop `CommonTypes` |
| Inference.GatheredAsWrittenFacts | index.js:674-677 | the loop as written throws exactly when some flattened type lacks the child it reads, and otherwise builds the corrected dictionary |
| Inference.CommonTypesAsWrittenAgrees | index.js:667-705 | where the code as written does not throw, it returns the corrected `Common` |
| Inference.CommonTypesAsWrittenThrows | index.js:672-677 | for the inputs `[[Array Number], [String]]` the code as written throws, while the corrected version returns `[]` |
| Inference.CommonTypesAsWritten | index.js:667-705 | `commonTypes` as written, with the `TypeError` as `None`; defined by its body, and related to `Common` by `CommonTypesAsWrittenAgrees` and `CommonTypesAsWrittenThrows` |
| Inference.FilterTypesByValuesExact | index.js:708-712 | `filterTypesByValues` keeps exactly the types that accept every value, in their original order |
| Inference.ConsistentTypesExact | index.js:985 | `chain(env, rejectAny)` holds exactly the copies `rejectAny` makes of the environment types with no ANY in their spine |
| Inference.Typeses | index.js:987-1000 | there is one candidate list per value |
| Inference.TypesesNames | index.js:987-1000 | the candidate list of a value names a consistent type if and only if that type accepts the value and is not `Nullable` |
| Inference.TypesOfSources | index.js:989-997 | every candidate for a value comes from a non-`Nullable` environment type of the same name that accepts the value, and none is INCONSISTENT |
| Inference.TypesOfComplete | index.js:989-997 | every non-`Nullable` environment type that accepts the value contributes at least one candidate of its own name |
| Inference.TypesOfRejected | index.js:991 | a value no environment type accepts has no candidates |
| Inference.TypesOf | index.js:989-999 | `chain(consistentTypes, ...)` for one value; defined by its body, and its candidates are stated by `TypesOfSources`, `TypesOfComplete` and `TypesOfRejected` |
| Inference.Specialised | index.js:990-998 | what one environment type contributes for a value; defined by its body, and stated through `TypesOfSources` and `TypesOfComplete` |
| Inference.DetermineOutcome | index.js:982-1013 | inference never returns `[]`. It returns `[Unknown]` for no values. Otherwise it returns the common types when there are any, else `[type0(tag)]` when no environment type accepts every value and all share `values[0]`'s tag, else `[Inconsistent]`. INCONSISTENT never appears alongside other types |
| Inference.DetermineForeignValue | index.js:1006-1010 | a value no consistent environment type accepts is inferred to have the foreign type named by its tag, and that type accepts it |
| Inference.Determine | index.js:982-1013 | `_determineActualTypes(loose)` on a list of values; defined by its body, and its result is stated by `DetermineOutcome` and `DetermineForeignValue` |
| Inference.Foreign | index.js:1006-1007 | no consistent type accepts every value, and every value has `values[0]`'s tag; defined by its body and used by `DetermineOutcome` |
| Inference.RejectInconsistent | index.js:1016-1018 | exactly the non-INCONSISTENT types are kept |
| Inference.RejectInconsistentFacts | index.js:1016-1018 | `rejectInconsistent([Inconsistent])` is `[]`, and a list without INCONSISTENT is kept whole |
| Inference.Strict | index.js:1021-1023 | strict inference never returns INCONSISTENT, and it is empty exactly when inference gives `[Inconsistent]` |
| Inference.Loose | index.js:1026-1028 | loose inference never returns INCONSISTENT, and it is empty exactly when inference gives `[Inconsistent]` |
| Unification.FirstFailingExact | index.js:1048-1049 | the first rejecting class is absent exactly when every class accepts the value, and when present it rejects the value |
| Unification.ViolationExact | index.js:1046-1064 | there is no violation exactly when every class accepts every value; a violation names a value and class that reject each other |
| Unification.Violation | index.js:1046-1064 | the first (value, class) pair, values outermost, where the class rejects the value; defined by its body, stated by `ViolationExact`, and computed by the loop `CheckConstraints` |
| Unification.CheckConstraints | index.js:1046-1064 | the nested loop returns the first violating (value, class) pair, values outermost |
| Unification.UnifyVariableConstraints | index.js:1045-1064 | a constraint violation is the result exactly when some value fails some class of the variable; it names such a pair and leaves the map unchanged |
| Unification.UnifyVariableBound | index.js:1065-1103 | for a bound variable the new candidates are the old ones that accept all values, in order; none left is a conflict reporting the previous binding; otherwise only this variable's entry is replaced |
| Unification.UnifyVariableUnbound | index.js:1080-1102 | for an unbound variable the candidates are the strict inference; none is a conflict; otherwise the variable is bound to them and nothing else changes |
| Unification.UnifyNarrows | index.js:1037-1129 | a whole run only narrows the map: no variable is dropped, each variable's candidates shrink, and every variable stays inhabited |
| Unification.UnifyShape | index.js:1105-1123 | a successful UNARY/BINARY run returns a non-empty list of that container respecialised by `from`, each with the container's whole test as predicate; a successful VARIABLE run returns a non-empty list |
| Unification.Unify | index.js:1037-1129 | `recur` of `_satisfactoryTypes` against a map of bindings; defined by its body, stated by `UnifyVariableConstraints`, `UnifyVariableBound`, `UnifyVariableUnbound`, `UnifyNarrows` and `UnifyShape`, and carried out in place by `TypeVarMap.Satisfy` |
| Unification.TypeVarMap.Satisfy | index.js:1039-1128 | the recursive method updates the map in place exactly as `Unify` says and returns its result |
| Unification.TypeVarMap.SatisfactoryTypes | index.js:1131-1137 | a run on the single value, which narrows the map and keeps it inhabited |
| Unification.TypeVarMap.Copy | index.js:1150-1153 | the copy has the same entries as the original |
| Curry.FirstMissingExact | index.js:961-977 | the environment check passes exactly when every non-variable type in the signature's spines shares a name with an environment type; a failure names such a type that does not |
| Curry.FirstMissing | index.js:961-977 | the first type of a signature's spines, depth first, whose name no environment type has; defined by its body, stated by `FirstMissingExact`, and computed by the loop `AssertInEnvironment` |
| Curry.AssertInEnvironment | index.js:961-977 | the loop with early `throw` and recursion into children reports the first missing type depth first |
| Curry.ReturnFailure | index.js:1187-1195 | the position reported for a bad return value is the return type's position in `expArgTypes.concat([expRetType])` |
| Curry.Admit | index.js:1164-1179 | one supplied argument: with `checkTypes` it must pass its type and `satisfactoryTypes` must return something, then it is written to its slot; defined by its body and stated through `RunCheckedAgrees` |
| Curry.Run | index.js:1156-1183 | the argument loop of `curry` over the pending positions; its result keeps the number of slots, and its effect is stated by `RunUncheckedOk`, `RunUncheckedValues`, `RunUncheckedPending`, `RunCheckedAgrees` and `RunErrorSticks` |
| Curry.Call | index.js:1141-1202 | one call of the function `curry` returns; defined by its body, stated by `ArityCheckedFirst`, `RunErrorSticks` and `CallKeepsValid`, and carried out on objects by `Curried.Invoke` |
| Curry.Saturates | index.js:1184 | the loop ends with nothing pending, so the implementation is applied; defined by its body and stated by `CallKeepsValid` |
| Curry.ArityCheckedFirst | index.js:1142-1149 | with `checkTypes`, more arguments than pending positions fail with the arity error before anything is examined, and the call does not saturate |
| Curry.RunUncheckedOk | index.js:1156-1183 | without type checking the loop never fails and leaves the map alone |
| Curry.RunUncheckedValues | index.js:1159-1179 | each non-placeholder argument at a pending position lands in its slot; every other slot is unchanged |
| Curry.RunUncheckedPending | index.js:1180-1182 | the new pending list holds exactly the pending positions that got a placeholder or no argument, as an ordered subsequence, strictly increasing |
| Curry.RunCheckedAgrees | index.js:1164-1177 | with type checking, a loop that gets through fills the same slots and leaves the same positions pending, and only narrows the map |
| Curry.RunErrorSticks | index.js:1169-1176 | a failure in the loop is the result of the call |
| Curry.CallKeepsValid | index.js:1156-1202 | a call keeps the state well formed; it saturates exactly when every pending position receives a value, and then every slot is filled |
| Curry.ReturnFailureAgreement | index.js:1192 | the position as written equals the return position exactly when the call supplies every argument at once |
| Curry.ReturnFailureAsWrittenMisplaced | index.js:1192 | for a binary function applied one argument at a time, the position as written selects the second argument's type instead of the return type |
| Curry.ReturnFailureAsWritten | index.js:1187-1195 | the failure as written reports the position `_indexes.length`; defined by its body and compared with `ReturnFailure` by `ReturnFailureAgreement` and `ReturnFailureAsWrittenMisplaced` |
| Curry.Implementation.Apply | index.js:1185 | applying the implementation logs the argument array once and returns `body` of it |
| Curry.Curried.Invoke | index.js:1139-1204 | one call agrees with `Call`: a failure, the returned value, or a partial call. The caller's map is unchanged. The implementation runs exactly once when the call saturates, on the filled array, and not at all otherwise. A partial call returns a new well-formed curried function over a fresh map holding the narrowed entries |
| Curry.Def | index.js:1221-1239 | arity above nine is a range error whatever `checkTypes` says; with `checkTypes` a missing type is an error; otherwise a curried function over an empty map with every position pending |

## Left out

- Diagnostic rendering is not modelled: the text of every error message, `show`, the signature layout and the `typePath`/`propPath` of a binding's history. Errors are `Failure` constructors carrying the position, the value and the variable name.
- JavaScript reflection is not modelled. `typeOf`, the `'@@type'` lookup, `show`, the leaf predicates and the extractors are abstract functions of a `Runtime`.
- Values are finite trees: `depth` decreases into extracted children. A cyclic value would make the source recurse without end.
- Strings compare by Dafny character. JavaScript's `sort` compares UTF-16 code units, and the two differ only beyond the Basic Multilingual Plane.
- ENUM membership compares `show` texts, as the source does. The texts themselves come from the runtime.
- The concrete environment catalogue and the floating-point refinement types are not modelled. Nor are factory entries in the environment applied to `Unknown`: the environment is taken as already resolved.
- The arity wrappers are not modelled: `Function.length` and `this` forwarding have no counterpart. Pending positions are an explicit list.
- The UMD loader is not modelled. Nor is `def`'s check of its own four arguments, or `RecordType`'s constructor-time `TypeError` for non-descriptor fields.
- Types.EqualTypes: the `unexpectedType` throw for an ANY or VARIABLE first operand (index.js:660-661) is modelled as `false`. The branch is reached only when the environment holds a type variable: `rejectAny` keeps the variable (index.js:630), its test accepts every value, and `commonTypes` then compares it with itself (index.js:696-701).
- Types.ShowType: the field loop of `RecordType`'s `toString` (index.js:410-419) is a sequence of field texts joined by `Join`, not a method with a loop.
- Curry.Def: requires a non-empty type list. With none, the source would take `undefined` as the return type and fail only when a checked call saturates.
- Curry.Curried.Invoke: the `arguments` array is a sequence of `Arg`. A value is a placeholder exactly when it is the `Placeholder` constructor.
- Types.RecordTest: it visits the fields in entry order rather than sorted order. The boolean answer is the same either way.
- Unification.UnifyVariableUnbound: it does not claim that strictly inferred types accept every value, because they need not. `commonTypes` respecialises the first value's container with `UnaryType.from(types[0])` (index.js:680), and the new type keeps that container's whole test. With the environment `[Array (over Unknown), Integer, Number]` and the values `[[1], [1.5]]`, the respecialisation comes from `Array Integer`, so the strictly inferred `Array Number` still demands Integer elements and rejects `[1.5]`.

## Findings

| source | as written | input that shows it | evidently intended | confidence | as-written member | corrected member |
|---|---|---|---|---|---|---|
| index.js:674-677, 684-688 | the `$1s`/`$2s` loop reads `t.$1.type` (and `t.$2.type`) of every flattened type, whatever its kind | `def('f', {}, [$.Array(a), a], impl)([[1], 'a'])` with `a = $.TypeVariable('a')` and the standard environment. The argument passes `Array a`, so the UNARY case of `_satisfactoryTypes` infers the type of the elements `[1]` and `'a'` together. Their candidate lists are `[Array Number]` and `[String]`, so `commonTypes` flattens them to `Array Number`, `String`. The loop then reads `String.$1.type`, and a `TypeError` escapes instead of the type-variable conflict | types lacking the child are passed over, so no common type is found and the values are reported as inconsistent | medium, not executed | Inference.CommonTypesAsWrittenThrows | Inference.CommonTypes |
| index.js:1192 | a bad return value is reported at position `_indexes.length`, the number of positions pending before the final call | a binary function applied one argument at a time: on the second call one position is pending, so the report points at the second argument's type | the return position `expArgTypes.length` | high, not executed | Curry.ReturnFailureAsWrittenMisplaced | Curry.ReturnFailure |
