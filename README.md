# simple-type-system in Dafny

This is a model of a small engine for curried function types. A function type is a
binary tree. A `Node` is "argument -> rest". A `Leaf` holds a type, which is one of:

- a concrete `Typ` with a tag and parameters;
- the wildcard `Any`;
- a `TypVar`.

`apply(f, x)` computes the type of `f` applied to one argument of type `x`. It works by
one-directional matching, done in two passes:

1. The argument part of `f` is matched against `x`, which binds variables of `x`.
2. That binding is applied to `x`, and the result is matched back against the argument
   part, which binds variables of `f`.

The second binding is then applied to the whole of `f`, and `apply` returns the return
part.

Modules, following the source files:

- `Results` (Results.dfy): the three failure kinds, `ZipShapeMismatch`, `TypeMismatch`
  and `LeafAccess`. Each thrown exception becomes an `Err` of its kind.
- `Containers` (Containers.dfy): `src/containers.ts`. The tree, `tree` (named `Build`),
  `fmap`, `reduce` and `zip`.
- `Types` (Types.dfy): the type model, `format`, `formatFT`, `arg`, `ret`,
  `replaceParams` and `stripParams`.
- `Substitution` (Substitution.dfy): substitutions.
  - `addSubst`, `mergeSubst` and `mergeSubsts` are functions of the maps. The class
    `MutableSubst` has methods that update a map in place, branch by branch and loop by
    loop, and are proved to compute those functions.
  - Also here: `applySubst`, `calcSubstTyp`, `calcSubstConcreteTyp` and `calcSubst`.
- `Unification` (Unification.dfy): `unify`, `apply`, and the three applications of the
  test suite.

Where the code and its own comments disagree, the model follows the code:

- The comment at `src/typesystem.ts:150-158` says `calcSubst` binds the variables of its
  LEFT tree. The code binds those of its RIGHT tree, to the left value with the value's
  own variables stripped. `CalcSubstDirection` shows the comment's example coming out
  reversed, and `CalcSubstBindsRightVarsOnly` proves the general rule.
- The comment at `src/typesystem.ts:244-246` says `mergeSubst` reports an error on a
  conflict. `addSubst` silently keeps the existing binding. `MergeSubstConflictKeepsFirst`
  states this.
- The comment at `src/typesystem.ts:254-257` says `mergeSubsts` modifies its arguments.
  Its loop (lines 258-263) only changes the fresh map `ret`, which it returns. The
  arguments are only read. `MutableSubst.MergeAll` follows the code.

`format(typ("Num"))` is `"Num "`, with a trailing space, because the code always puts a
space after the tag. `FormatNullary` states this.

Every leaf type the model handles is a `Typ`, `Any` or `TypVar`. So the fallback `throw`
of `calcSubstTyp` (`src/typesystem.ts:200`) cannot be reached, and the model's `match`
has no such case.

## Model

| member | source | states |
|---|---|---|
| Containers.Build | src/containers.ts:4-10 | `tree(xs)`, the right-associated tree of one or more trees; its contract is given by BuildLeaves (leaves kept in order), BuildSingle (a single argument is returned as it is), BuildSpine (every tree is `tree` of its right spine) and SpineBuild (when the last argument is a leaf, the argument list can be recovered from the result) |
| Containers.BuildSpine | src/containers.ts:4-10 | rebuilding a tree from its right spine with `tree` gives back the tree |
| Containers.SpineBuild | src/containers.ts:4-10 | when the last argument is a leaf, the right spine of `tree(xs)` is `xs`, so such an argument list can be recovered from the tree |
| Containers.BuildSingle | src/containers.ts:5-7 | a single argument, leaf or node, is returned as it is |
| Containers.BuildLeaves | src/containers.ts:4-10 | `tree(xs)` keeps all the leaves of its arguments, concatenated in order |
| Containers.BuildOfLeaves | src/containers.ts:4-10 | built from n leaf arguments, `tree` has exactly those n leaves in the same order |
| Containers.BuildExample | src/containers.ts:4-10 | `tree(1,2,3)` is `Node(1, Node(2,3))`, and `tree(x)` is `x` |
| Containers.Spine | src/containers.ts:4-10 | the right spine is non-empty and ends in a leaf |
| Containers.Fmap | src/containers.ts:16-25 | `fmap` keeps the shape, and its leaves are `f` of the input's leaves, in order |
| Containers.FmapIdentity | src/containers.ts:16-25 | functor identity law: `fmap(id, t) == t` |
| Containers.FmapCompose | src/containers.ts:16-25 | functor composition law: `fmap(g∘f, t) == fmap(g, fmap(f, t))` |
| Containers.FmapExample | src/containers.test.ts:7-12 | `fmap(x+1, tree(1,2,3)) == tree(2,3,4)` |
| Containers.Reduce | src/containers.ts:27-33 | bottom-up fold; stated by ReduceLeaf and ReduceAddIsSum, and, for `mergeSubst`, by ReduceMergeIsMergeSubsts (the fold is `mergeSubsts` of the leaves, whatever the bracketing) |
| Containers.ReduceLeaf | src/containers.ts:27-33 | a leaf reduces to its own value, whatever the combining function |
| Containers.ReduceAddIsSum | src/containers.ts:27-33 | reducing with `+` gives the sum of the leaves, for any shape |
| Containers.ReduceExample | src/containers.test.ts:14-19 | the sum over `tree(1,2,3)` is 6 |
| Containers.Zip | src/containers.ts:35-50 | `zip` succeeds iff both trees have the same shape; otherwise it fails with ZipShapeMismatch; on success the result has that shape, and its i-th leaf pairs the i-th leaves of the two trees |
| Containers.ZipFirst | src/containers.ts:35-43 | `fmap(fst, zip(l, r)) == l` |
| Containers.ZipSecond | src/containers.ts:35-43 | `fmap(snd, zip(l, r)) == r` |
| Containers.ZipSelf | src/containers.ts:35-43 | `zip(t, t)` succeeds and pairs each leaf with itself |
| Containers.ZipExample | src/containers.test.ts:21-24 | `zip(tree(1,2,3), tree("a","b","c")) == tree([1,"a"],[2,"b"],[3,"c"])`, and a leaf zipped with a node fails |
| Containers.SameShapeTransitive | src/containers.ts:35-50 | "same shape", the relation under which `zip` succeeds, is transitive |
| Types.Format | src/typesystem.ts:39-47 | rendering of one type; stated by FormatNullary and FormatExamples |
| Types.FormatFT | src/typesystem.ts:68-76 | rendering of a function type; stated by FormatFTChain and FormatExamples |
| Types.FormatNullary | src/typesystem.ts:39-47 | a nullary type renders as its tag followed by one space |
| Types.FormatFTChain | src/typesystem.ts:68-76 | a first-order curried type renders as its rendered leaves joined by " -> ", with no parentheses |
| Types.FormatExamples | src/typesystem.ts:39-47 | `Seq Num` renders as "Seq Num ", parameters are separated by spaces, and `(a -> a) -> b` gets parentheses on its higher-order argument |
| Types.Arg | src/typesystem.ts:78-83 | `arg` is defined exactly on nodes; it gives the left child and fails with LeafAccess on a leaf |
| Types.Ret | src/typesystem.ts:85-90 | `ret` is defined exactly on nodes; it gives the right child and fails with LeafAccess on a leaf |
| Types.ArgRetSplit | src/typesystem.ts:78-90 | a function type is its `arg` and its `ret` put back together |
| Types.ReplaceParams | src/typesystem.ts:122-133 | `replaceParams` turns a variable into `f` of its name, maps the wildcard to itself, and rewrites a concrete type parameter by parameter, keeping its tag and arity |
| Types.ReplaceParamsVarFree | src/typesystem.ts:122-133 | when every variable is replaced by a variable-free type, no variable is left at any depth |
| Types.ReplaceParamsOccurs | src/typesystem.ts:122-133 | every variable of the result comes from the replacement of some variable of the input |
| Types.ReplaceParamsIdentity | src/typesystem.ts:122-133 | replacing each variable by itself changes nothing |
| Types.StripParams | src/typesystem.ts:135-140 | `stripParams` leaves no variable; it keeps a variable-free type unchanged, turns a bare variable into Any, keeps tag and arity, and strips each parameter in the same way, so nested variables become Any too |
| Types.StripParamsExample | src/typesystem.ts:135-140 | `Map k (Seq v)` strips to `Map Any (Seq Any)` |
| Substitution.AddSubst | src/typesystem.ts:221-241 | `addSubst` binds a new key; for a bound key the existing binding wins unless it is Any; no other key changes |
| Substitution.MutableSubst.Add | src/typesystem.ts:221-241 | the in-place `addSubst` leaves the map that `AddSubst` describes |
| Substitution.MergeSubst | src/typesystem.ts:243-252 | `mergeSubst` has domain `dom(x) ∪ dom(y)`; keys absent from `y` are untouched; a key only in `y` takes `y`'s value; for a shared key `x`'s value is kept unless it is Any |
| Substitution.MergeSubstConflictKeepsFirst | src/typesystem.ts:221-252 | two different concrete bindings of one key: the existing one is kept and no error is raised |
| Substitution.MergeSubstUnit | src/typesystem.ts:247-252 | the empty substitution is a unit of merging on both sides |
| Substitution.MergeSubstAssoc | src/typesystem.ts:247-252 | merging is associative |
| Substitution.MergeSubstsAppend | src/typesystem.ts:254-264 | `mergeSubsts` of a concatenation is the merge of the two parts' `mergeSubsts` |
| Substitution.ReduceMergeIsMergeSubsts | src/typesystem.ts:159-163 | the `reduce(mergeSubst, ·)` in `calcSubst` equals `mergeSubsts` of the tree's leaves, left to right, whatever the tree's bracketing |
| Substitution.MergeSubstVarFree | src/typesystem.ts:247-252 | merging keeps bound values variable-free |
| Substitution.MergeOneMore | src/typesystem.ts:247-252 | one iteration of the merge loop extends the part of `y` already merged by one entry |
| Substitution.MutableSubst.Merge | src/typesystem.ts:247-252 | the in-place loop over `y`'s entries, in any order, leaves `MergeSubst(x, y)` in `x` and returns `x` |
| Substitution.MergeSubsts | src/typesystem.ts:254-264 | left-to-right merge of a list of substitutions; stated by MergeSubstsBindings, MergeSubstsVarFree and MergeExample, and computed in place by MutableSubst.MergeAll |
| Substitution.MergeSubstsBindings | src/typesystem.ts:254-264 | `mergeSubsts` binds a key iff one of the maps binds it, to the value one of them gives it |
| Substitution.MergeSubstsVarFree | src/typesystem.ts:254-264 | `mergeSubsts` keeps bound values variable-free |
| Substitution.MergeExample | src/typesystem.ts:254-264 | merging `{a: Any}`, `{a: Num, b: Str}`, `{a: Str}` gives `{a: Num, b: Str}`: Any gives way, then the first concrete binding wins |
| Substitution.MutableSubst.MergeAll | src/typesystem.ts:254-264 | the loop merges every map into a fresh map, giving `MergeSubsts` of their bindings |
| Substitution.MutableSubst.constructor | src/typesystem.ts:100-102 | a new substitution is empty |
| Substitution.ApplySubst | src/typesystem.ts:142-148 | `applySubst` keeps the tree's shape, and rewrites each leaf with the substitution, as RewriterCases spells out |
| Substitution.RewriterCases | src/typesystem.ts:142-148 | the per-leaf rewrite turns a bound variable into its binding, keeps an unbound variable and the wildcard, and rewrites a concrete type parameter by parameter |
| Substitution.ApplySubstEmpty | src/typesystem.ts:142-148 | the empty substitution is the identity |
| Substitution.ApplySubstOfUnbound | src/typesystem.ts:142-148 | unbound variables pass through, so a substitution that binds none of the tree's variables changes nothing |
| Substitution.ApplySubstEliminates | src/typesystem.ts:142-148 | with variable-free bindings, every bound variable is replaced, nested or not; the result mentions only variables of the input that are unbound |
| Substitution.ApplySubstIdempotent | src/typesystem.ts:142-148 | with variable-free bindings, applying a substitution twice equals applying it once |
| Substitution.CalcSubstTyp | src/typesystem.ts:169-201 | matching of two leaf types; stated by CalcSubstTypCases, CalcSubstTypOk, CalcSubstTypSound and CalcSubstTypComplete |
| Substitution.CalcSubstConcreteTyp | src/typesystem.ts:206-216 | matching of two concrete types; stated by CalcSubstTypCases (mismatch), CalcSubstParams, CalcSubstParamsOk and CalcSubstTypSingleParam |
| Substitution.CalcSubstTypCases | src/typesystem.ts:169-209 | Any on either side gives the empty substitution, and so does a left variable; a right variable facing a concrete type is bound to the stripped type; a tag or arity mismatch fails with TypeMismatch |
| Substitution.CalcSubstTypOk | src/typesystem.ts:169-216 | `calcSubstTyp` succeeds iff, at every nesting depth, two concrete types met at one position agree on tag and parameter count; otherwise it fails with TypeMismatch |
| Substitution.CalcSubstParamsOk | src/typesystem.ts:206-216 | the parameter-wise pass succeeds iff every remaining parameter pair is compatible |
| Substitution.CalcSubstParams | src/typesystem.ts:210-215 | on success the parameter-wise pass has one substitution per parameter pair, each the `calcSubstTyp` of that pair |
| Substitution.CalcSubstTypSound | src/typesystem.ts:169-216 | every binding `calcSubstTyp` returns comes from a right-side variable facing a concrete left type, and is that type stripped |
| Substitution.CalcSubstTypComplete | src/typesystem.ts:169-216 | every right-side variable facing a concrete left type is bound |
| Substitution.OffersFacts | src/typesystem.ts:186-198 | only variables of the right side receive bindings, and only variable-free ones |
| Substitution.Collect | src/typesystem.ts:159-163 | the per-leaf results combine iff no leaf fails; then the tree of substitutions has the same shape, and its i-th leaf is the i-th leaf's substitution |
| Substitution.CollectFirstFailure | src/typesystem.ts:159-163 | a failure reports the error of the first failing leaf, left to right, as `fmap` stops at the first throw |
| Substitution.CalcSubst | src/typesystem.ts:159-163 | matching of two function types; stated by CalcSubstLeaf, CalcSubstNode, CalcSubstOk, CalcSubstExact and CalcSubstBindsRightVarsOnly |
| Substitution.CalcSubstLeaf | src/typesystem.ts:159-163 | on two leaves `calcSubst` is `calcSubstTyp` |
| Substitution.CalcSubstNode | src/typesystem.ts:159-163 | on matching nodes `calcSubst` fails iff one half fails; otherwise it is the merge of the two halves' substitutions |
| Substitution.CalcSubstOk | src/typesystem.ts:159-163 | `calcSubst` succeeds iff the shapes match and every leaf pair is compatible; it fails with ZipShapeMismatch exactly when the shapes differ |
| Substitution.CalcSubstSameShapeError | src/typesystem.ts:159-163 | with matching shapes, any failure is a TypeMismatch |
| Substitution.CalcSubstExact | src/typesystem.ts:159-198 | `calcSubst` binds a variable iff some leaf pair offers a value for it, and binds it to an offered value |
| Substitution.CalcSubstBindsRightVarsOnly | src/typesystem.ts:150-198 | the result binds only variables of the right tree, and every bound value is variable-free |
| Substitution.CalcSubstDirection | src/typesystem.ts:150-163 | `calcSubst(x -> y, A -> B)` is empty, and `calcSubst(A -> B, x -> y)` is `{x: A, y: B}` |
| Substitution.CompatibleSymmetric | src/typesystem.ts:206-209 | the tag-and-arity agreement `calcSubstTyp` demands is symmetric |
| Unification.Unify | src/typesystem.ts:104-116 | the two matching passes; stated by UnifyKeepsShape and, through `Apply`, by the Apply lemmas below |
| Unification.Apply | src/typesystem.ts:118-120 | `unify` at the argument position followed by `ret`; stated by ApplyInstantiates, ApplyNoNewVariables, ApplyMonomorphicArgument, ApplyConcreteArgument, ApplyErrors, ApplyRejectsConflictingBindings and ApplyAcceptsConflictingArgument |
| Unification.UnifyKeepsShape | src/typesystem.ts:104-116 | `unify` returns a tree of the shape of `f` |
| Unification.ApplyInstantiates | src/typesystem.ts:112-120 | a successful `apply` returns the return part with some argument-part variables replaced by variable-free types, and nothing else changed |
| Unification.ApplyNoNewVariables | src/typesystem.ts:112-120 | the result has the return part's shape; it mentions no variable the return part does not, and none that the second pass binds |
| Unification.ApplyMonomorphicArgument | src/typesystem.ts:112-120 | if the argument part has no variables, `apply` returns the return part unchanged |
| Unification.ApplyConcreteArgument | src/typesystem.ts:112-120 | a variable-free argument that matches the argument part in shape and leafwise compatibility is accepted |
| Unification.ApplyErrors | src/typesystem.ts:78-120 | `apply` fails with LeafAccess exactly on a leaf; it fails with ZipShapeMismatch exactly when the argument's shape differs from the argument part's; with equal shapes, an incompatible leaf pair gives TypeMismatch (the converse fails, see ApplyRejectsConflictingBindings) |
| Unification.ApplyRejectsConflictingBindings | src/typesystem.ts:112-120 | a leafwise compatible argument can still be rejected: `Pair a a` against the argument part `Pair Num Str` passes the first pass with `a := Num`, because merging drops the conflicting `a := Str`, and the second pass then fails with TypeMismatch |
| Unification.CalcSubstConflictingPair | src/typesystem.ts:206-241 | `Pair Num Str` against `Pair a a` gives `{a: Num}`: the second offer `a := Str` is dropped without error |
| Unification.ApplyAcceptsConflictingArgument | src/typesystem.ts:112-120 | the mirror case: `Pair a a -> a` applied to `Pair Num Str` is accepted and gives Num |
| Unification.CalcSubstTypSingleParam | src/typesystem.ts:206-216 | matching `T p` against `T q` is matching `p` against `q` |
| Unification.ApplyAddExample | src/typesystem.test.ts:21-30 | `Num -> Num -> Num` applied to Num and then Num gives Num |
| Unification.ApplyMapFirst | src/typesystem.test.ts:21-31 | `map` applied to `Seq Num` gives `(Num -> b) -> Seq b` |
| Unification.ApplyMapSecond | src/typesystem.test.ts:21-31 | `(Num -> b) -> Seq b` applied to `a -> a` gives `Seq Num` |
| Unification.ApplyMapExample | src/typesystem.test.ts:21-31 | `Seq a -> (a -> b) -> Seq b` applied to `Seq Num` and then `a -> a` gives `Seq Num` |
| Unification.ApplyFoldFirst | src/typesystem.test.ts:21-32 | `fold` applied to Num gives `Seq b -> (Num -> b -> Num) -> Num` |
| Unification.ApplyFoldSecond | src/typesystem.test.ts:21-32 | that type applied to `Seq Num` gives `(Num -> Num -> Num) -> Num` |
| Unification.ApplyFoldThird | src/typesystem.test.ts:21-32 | that type applied to `add` gives Num |
| Unification.ApplyFoldExample | src/typesystem.test.ts:21-32 | `a -> Seq b -> (a -> b -> a) -> a` applied to Num, `Seq Num` and `add` gives Num |
| Unification.ApplyLeafExample | src/typesystem.ts:118-120 | `apply` on a non-function type fails with LeafAccess |

## Left out

- `isNode`, `isTyp`, `isAnyConstraint` and `isTypVar` probe object fields at run time. In the model they are the datatype discriminators (`Node?`, `Typ?`, `Any?`, `TypVar?`). No leaf value here has `left`/`right` fields, so a tagged datatype behaves the same.
- `typ`, `any`, `typvar` and `emptySubst` are the datatype constructors `Typ`, `Any` and `TypVar`, and `map[]`. The default empty parameter list of `typ` is written out as `[]`.
- `lodash/isEqual` is a foreign deep-equality call. Dafny's structural datatype equality takes its place.
- Exception messages and their `JSON.stringify` diagnostics are not modelled. Only the error kind is kept, and `Zip` carries no copies of the mismatched subtrees.
- The lookup `subst.get(v.id) || v` relies on JavaScript truthiness. Every `TypPlus` is truthy, so it is modelled as "the binding if there is one, else the variable".
- Map insertion order is not modelled. `MutableSubst.Merge` picks the next key in an unspecified order and is proved correct for every order.
- Inside `calcSubst`, `reduce(mergeSubst, ...)` updates the left subtree's map in place. The pure model merges values instead. Each of those maps is freshly made for one leaf, so the difference cannot be observed. The in-place updates are modelled by the `MutableSubst` methods.
- When several leaves fail, `Collect` reports the first failure, left to right, as `fmap` would (CollectFirstFailure). Every such failure is a TypeMismatch, and only its kind is kept.
- Build: it requires at least one argument. With no arguments, `tree()` at src/containers.ts:4-10 destructures an empty list and calls itself again with an empty list, so it never returns. The model excludes that call instead of modelling a non-terminating one.
- `unify` takes `at` as a function parameter of type `FT -> Result<FT>`, so that `arg` can fail. As in the source, only `Apply` uses it, with `Arg`.
- The ava test harness, its macro and its title formatting are not modelled. The test cases appear only as expected values in the example lemmas.
- MergeSubstsBindings: it states that each bound value comes from one of the merged maps, but not which one. Which one is stated pairwise by `MergeSubst`: the first value that is not the wildcard, or the wildcard if all are.
- CalcSubstExact: it states that the bound value is one of the offered values, but not which one. An offered value is always a stripped concrete type, never the wildcard, so by `MergeSubst` and ReduceMergeIsMergeSubsts it is the first offered value, left to right.
