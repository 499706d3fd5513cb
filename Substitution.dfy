/** Substitutions: maps from variable names to types, how two of them are
    merged, how one is applied to a function type, and how one is computed by
    matching two function types leaf by leaf. */
module Substitution {
  import opened Results
  import opened Containers
  import opened Types

  type Subst = map<Var, TypPlus>

  /** No bound value mentions a variable. */
  predicate SubstVarFree(s: Subst) {
    forall k :: k in s ==> VarFree(s[k])
  }

  // ---------------------------------------------------------------------------
  // Adding and merging bindings

  /** `addSubst`, as a function of the map before the call: a new key is bound;
      an existing binding that equals the new value, or a new value that is the
      wildcard, leaves the map alone; a wildcard binding is upgraded; any other
      existing binding is silently kept. Whatever the case, the first binding
      that is not the wildcard wins and no other key changes. */
  function AddSubst(x: Subst, v: Var, typ: TypPlus): (r: Subst)
    ensures r.Keys == x.Keys + {v}
    ensures forall k :: k in x && k != v ==> r[k] == x[k]
    ensures r[v] == if v in x && !x[v].Any? then x[v] else typ
  {
    if v !in x then x[v := typ]
    else if x[v] == typ then x
    else if typ.Any? then x
    else if x[v].Any? then x[v := typ]
    else x
  }

  /** `mergeSubst(x, y)`, key by key: the map that `addSubst` of every binding
      of `y` into `x` leaves behind (`MutableSubst.Merge` is that loop). Keys
      absent from `y` keep their value; for a key of both maps the value of `x`
      wins unless it is the wildcard. Conflicts raise no error. */
  function MergeSubst(x: Subst, y: Subst): (r: Subst)
    ensures r.Keys == x.Keys + y.Keys
    ensures forall k :: k in x && k !in y ==> r[k] == x[k]
    ensures forall k :: k in y && k !in x ==> r[k] == y[k]
    ensures forall k :: k in x && k in y ==> r[k] == if x[k].Any? then y[k] else x[k]
  {
    map k | k in x.Keys + y.Keys :: if k in x && (k !in y || !x[k].Any?) then x[k] else y[k]
  }

  /** Two different concrete bindings of one key: the existing one is kept. */
  lemma MergeSubstConflictKeepsFirst(x: Subst, y: Subst, k: Var)
    requires k in x && k in y && x[k] != y[k] && !x[k].Any? && !y[k].Any?
    ensures k in MergeSubst(x, y) && MergeSubst(x, y)[k] == x[k]
  {
  }

  /** The empty substitution is a unit of merging on both sides. */
  lemma MergeSubstUnit(x: Subst)
    ensures MergeSubst(x, map[]) == x
    ensures MergeSubst(map[], x) == x
  {
  }

  /** Merging is associative, so a fold over a tree of substitutions does not
      depend on how the tree is bracketed. */
  lemma MergeSubstAssoc(a: Subst, b: Subst, c: Subst)
    ensures MergeSubst(MergeSubst(a, b), c) == MergeSubst(a, MergeSubst(b, c))
  {
    var lhs, rhs := MergeSubst(MergeSubst(a, b), c), MergeSubst(a, MergeSubst(b, c));
    forall k | k in lhs ensures k in rhs && lhs[k] == rhs[k] {
    }
  }

  /** Merging only copies bound values, so it keeps them variable-free. */
  lemma MergeSubstVarFree(x: Subst, y: Subst)
    requires SubstVarFree(x) && SubstVarFree(y)
    ensures SubstVarFree(MergeSubst(x, y))
  {
  }

  /** `mergeSubsts`: the maps merged one after the other into an empty map. */
  function MergeSubsts(xs: seq<Subst>): Subst {
    if |xs| == 0 then map[] else MergeSubst(MergeSubsts(xs[..|xs| - 1]), xs[|xs| - 1])
  }

  /** Merging a concatenation merges the merges of its two parts. */
  lemma {:induction false} MergeSubstsAppend(xs: seq<Subst>, ys: seq<Subst>)
    ensures MergeSubsts(xs + ys) == MergeSubst(MergeSubsts(xs), MergeSubsts(ys))
    decreases |ys|
  {
    if |ys| == 0 {
      assert xs + ys == xs;
      MergeSubstUnit(MergeSubsts(xs));
    } else {
      var n := |ys| - 1;
      assert (xs + ys)[..|xs + ys| - 1] == xs + ys[..n];
      assert (xs + ys)[|xs + ys| - 1] == ys[n];
      MergeSubstsAppend(xs, ys[..n]);
      MergeSubstAssoc(MergeSubsts(xs), MergeSubsts(ys[..n]), ys[n]);
    }
  }

  /** `reduce(mergeSubst, t)`, as `calcSubst` folds its leaves, is the
      left-to-right `mergeSubsts` of the leaves, whatever the tree's shape. */
  lemma {:induction false} ReduceMergeIsMergeSubsts(t: Tree<Subst>)
    ensures Reduce(MergeSubst, t) == MergeSubsts(Leaves(t))
  {
    match t
    case Leaf(x) =>
      assert [x][..0] == [];
      MergeSubstUnit(x);
    case Node(l, r) =>
      ReduceMergeIsMergeSubsts(l);
      ReduceMergeIsMergeSubsts(r);
      MergeSubstsAppend(Leaves(l), Leaves(r));
  }

  /** A key is bound by `mergeSubsts` iff one of the maps binds it, and its
      value is the value one of them gives it. */
  lemma {:induction false} MergeSubstsBindings(xs: seq<Subst>, k: Var)
    ensures k in MergeSubsts(xs) <==> exists i :: 0 <= i < |xs| && k in xs[i]
    ensures k in MergeSubsts(xs) ==> exists i :: 0 <= i < |xs| && k in xs[i] && MergeSubsts(xs)[k] == xs[i][k]
  {
    if |xs| > 0 {
      var n := |xs| - 1;
      var init, m := xs[..n], MergeSubsts(xs[..n]);
      MergeSubstsBindings(init, k);
      assert forall i :: 0 <= i < n ==> init[i] == xs[i];
      if k in MergeSubsts(xs) {
        if k in xs[n] && (k !in m || m[k].Any?) {
          assert MergeSubsts(xs)[k] == xs[n][k];
        } else {
          var i :| 0 <= i < n && k in init[i] && m[k] == init[i][k];
          assert MergeSubsts(xs)[k] == xs[i][k];
        }
      }
    }
  }

  lemma MergeSubstsVarFree(xs: seq<Subst>)
    requires forall i :: 0 <= i < |xs| ==> SubstVarFree(xs[i])
    ensures SubstVarFree(MergeSubsts(xs))
  {
    var r := MergeSubsts(xs);
    forall k | k in r ensures VarFree(r[k]) {
      MergeSubstsBindings(xs, k);
      var i :| 0 <= i < |xs| && k in xs[i] && r[k] == xs[i][k];
    }
  }

  /** The first informative binding of a key wins, the wildcard gives way. */
  lemma MergeExample()
    ensures MergeSubsts([map["a" := Any], map["a" := Typ("Num", []), "b" := Typ("Str", [])],
                         map["a" := Typ("Str", [])]])
         == map["a" := Typ("Num", []), "b" := Typ("Str", [])]
  {
    var m0, m1, m2 := map["a" := Any], map["a" := Typ("Num", []), "b" := Typ("Str", [])], map["a" := Typ("Str", [])];
    var xs := [m0, m1, m2];
    assert xs[..2][..1] == [m0] && [m0][..0] == [];
    MergeSubstUnit(m0);
    assert MergeSubsts([m0]) == m0;
    assert MergeSubst(m0, m1) == m1;
    assert MergeSubsts(xs[..2]) == m1;
    assert MergeSubst(m1, m2) == m1;
  }

  // ---------------------------------------------------------------------------
  // The substitution map as the mutable object the original updates in place

  /** A `Map<Var, TypPlus>` that `addSubst` and `mergeSubst` update in place. */
  class MutableSubst {
    var bindings: Subst

    /** `emptySubst()`. */
    constructor ()
      ensures bindings == map[]
    {
      bindings := map[];
    }

    /** `addSubst(this, v, typ)`, branch by branch. */
    method Add(v: Var, typ: TypPlus)
      modifies this
      ensures bindings == AddSubst(old(bindings), v, typ)
    {
      if v !in bindings {
        bindings := bindings[v := typ];
        return;
      }
      var prev := bindings[v];
      if prev == typ {
        return;
      }
      if typ == Any {
        return;
      }
      if prev == Any {
        bindings := bindings[v := typ];
        return;
      }
    }

    /** `mergeSubst(this, y)`: adds the entries of `y` one at a time, in an
        order left open, and returns `this`. */
    method Merge(y: MutableSubst) returns (r: MutableSubst)
      modifies this
      ensures r == this
      ensures bindings == MergeSubst(old(bindings), old(y.bindings))
    {
      var entries := y.bindings;
      var todo := entries.Keys;
      assert entries - todo == map[];
      while todo != {}
        invariant todo <= entries.Keys
        invariant bindings == MergeSubst(old(bindings), entries - todo)
        decreases todo
      {
        var k :| k in todo;
        assert entries - (todo - {k}) == (entries - todo)[k := entries[k]];
        MergeOneMore(old(bindings), entries - todo, k, entries[k]);
        Add(k, entries[k]);
        todo := todo - {k};
      }
      assert entries - todo == entries;
      r := this;
    }

    /** `mergeSubsts(xs)`: a fresh map into which every map of `xs` is merged
        in turn; the maps of `xs` are left as they were. */
    static method MergeAll(xs: seq<MutableSubst>) returns (r: MutableSubst)
      ensures fresh(r)
      ensures r.bindings == MergeSubsts(BindingsOf(xs))
    {
      r := new MutableSubst();
      ghost var bs := BindingsOf(xs);
      var i := 0;
      while i < |xs|
        invariant 0 <= i <= |xs|
        invariant fresh(r)
        invariant forall j :: 0 <= j < |xs| ==> xs[j].bindings == bs[j]
        invariant r.bindings == MergeSubsts(bs[..i])
      {
        assert bs[..i + 1][..i] == bs[..i];
        var _ := r.Merge(xs[i]);
        i := i + 1;
      }
      assert bs[..i] == bs;
      assert BindingsOf(xs) == bs;
    }
  }

  /** The current bindings of a list of mutable maps. */
  function BindingsOf(xs: seq<MutableSubst>): (r: seq<Subst>)
    reads set i | 0 <= i < |xs| :: xs[i]
    ensures |r| == |xs| && forall i :: 0 <= i < |xs| ==> r[i] == xs[i].bindings
  {
    seq(|xs|, i reads set i | 0 <= i < |xs| :: xs[i] requires 0 <= i < |xs| => xs[i].bindings)
  }

  /** One more step of the merge loop: adding one more entry of `y` to the
      merge of the entries already added. */
  lemma MergeOneMore(x: Subst, m: Subst, k: Var, v: TypPlus)
    requires k !in m
    ensures AddSubst(MergeSubst(x, m), k, v) == MergeSubst(x, m[k := v])
  {
    var mx := MergeSubst(x, m);
    var lhs, rhs := AddSubst(mx, k, v), MergeSubst(x, m[k := v]);
    assert k in mx <==> k in x;
    assert k in mx ==> mx[k] == x[k];
    assert lhs[k] == rhs[k];
    forall j | j in lhs && j != k ensures j in rhs && lhs[j] == rhs[j] {
      assert lhs[j] == mx[j];
    }
    assert lhs.Keys == rhs.Keys;
  }

  // ---------------------------------------------------------------------------
  // Applying a substitution

  /** The replacement `applySubst` uses for a variable: its binding, or the
      variable itself when it is unbound. */
  function Replacer(s: Subst): Var -> TypPlus {
    v => if v in s then s[v] else TypVar(v)
  }

  function Rewriter(s: Subst): TypPlus -> TypPlus {
    t => ReplaceParams(Replacer(s), t)
  }

  /** A variable is rewritten to its binding when it has one and is kept
      otherwise; a concrete type is rewritten parameter by parameter. */
  lemma RewriterCases(s: Subst, t: TypPlus)
    ensures t.TypVar? ==> Rewriter(s)(t) == if t.id in s then s[t.id] else t
    ensures t.Any? ==> Rewriter(s)(t) == Any
    ensures t.Typ? ==> && Rewriter(s)(t).Typ? && Rewriter(s)(t).tag == t.tag
                       && |Rewriter(s)(t).params| == |t.params|
                       && forall i :: 0 <= i < |t.params| ==> Rewriter(s)(t).params[i] == Rewriter(s)(t.params[i])
  {
  }

  /** `applySubst`: every bound variable, as a leaf or nested in parameters,
      is replaced by its binding; the tree keeps its shape. */
  function ApplySubst(ft: FT, s: Subst): (r: FT)
    ensures SameShape(ft, r)
    ensures Leaves(r) == MapSeq(Rewriter(s), Leaves(ft))
  {
    Fmap(Rewriter(s), ft)
  }

  /** The empty substitution changes nothing. */
  lemma {:induction false} ApplySubstEmpty(ft: FT)
    ensures ApplySubst(ft, map[]) == ft
  {
    ApplySubstOfUnbound(ft, map[]);
  }

  /** A substitution whose keys do not occur in `ft` changes nothing. */
  lemma {:induction false} ApplySubstOfUnbound(ft: FT, s: Subst)
    requires forall v :: OccursFT(v, ft) ==> v !in s
    ensures ApplySubst(ft, s) == ft
  {
    match ft
    case Leaf(t) =>
      ReplaceParamsIdentity(Replacer(s), t);
    case Node(l, r) =>
      ApplySubstOfUnbound(l, s);
      ApplySubstOfUnbound(r, s);
  }

  /** With variable-free bindings, the result keeps only the variables of `ft`
      that `s` does not bind. */
  lemma {:induction false} ApplySubstEliminates(ft: FT, s: Subst, w: Var)
    requires SubstVarFree(s)
    requires OccursFT(w, ApplySubst(ft, s))
    ensures OccursFT(w, ft) && w !in s
  {
    match ft
    case Leaf(t) =>
      assert ApplySubst(ft, s) == Leaf(ReplaceParams(Replacer(s), t));
      ReplaceParamsOccurs(Replacer(s), t, w);
      var v :| Occurs(v, t) && Occurs(w, Replacer(s)(v));
      if v in s {
        assert Replacer(s)(v) == s[v];
        assert Occurs(w, s[v]);
        assert VarFree(s[v]);
        VarFreeNoOccurrence(s[v]);
        assert false;
      } else {
        assert Replacer(s)(v) == TypVar(v);
      }
    case Node(l, r) =>
      if OccursFT(w, ApplySubst(l, s)) {
        ApplySubstEliminates(l, s, w);
      } else {
        ApplySubstEliminates(r, s, w);
      }
  }

  /** With variable-free bindings, applying a substitution twice is the same
      as applying it once. */
  lemma ApplySubstIdempotent(ft: FT, s: Subst)
    requires SubstVarFree(s)
    ensures ApplySubst(ApplySubst(ft, s), s) == ApplySubst(ft, s)
  {
    forall v | OccursFT(v, ApplySubst(ft, s)) ensures v !in s {
      ApplySubstEliminates(ft, s, v);
    }
    ApplySubstOfUnbound(ApplySubst(ft, s), s);
  }

  // ---------------------------------------------------------------------------
  // Computing a substitution from two types

  /** `calcSubstTyp`: the bindings found by matching leaf `l` against leaf `r`.
      Only variables of the RIGHT side are bound (to the left value with its own
      variables stripped); a wildcard on either side or a variable on the left
      gives nothing; two concrete types are matched parameter by parameter. */
  function CalcSubstTyp(l: TypPlus, r: TypPlus): Result<Subst>
    decreases l, 2, 0
  {
    match (l, r)
    case (Typ(_, _), Typ(_, _)) => CalcSubstConcreteTyp(l, r)
    case (Any, _) => Ok(map[])
    case (_, Any) => Ok(map[])
    case (TypVar(_), _) => Ok(map[])
    case (Typ(_, _), TypVar(id)) => Ok(map[id := StripParams(l)])
  }

  /** `calcSubstConcreteTyp`: equal tags and parameter counts are required;
      the parameters' substitutions are merged in order. */
  function CalcSubstConcreteTyp(l: TypPlus, r: TypPlus): Result<Subst>
    requires l.Typ? && r.Typ?
    decreases l, 1, 0
  {
    if l.tag != r.tag || |l.params| != |r.params| then Err(TypeMismatch)
    else
      var ss :- CalcSubstParams(l, r, 0);
      Ok(MergeSubsts(ss))
  }

  /** The substitutions of the parameter pairs from index `i` on, failing at
      the first pair that fails (`params.map(...)` stops at the first throw). */
  function CalcSubstParams(l: TypPlus, r: TypPlus, i: nat): (res: Result<seq<Subst>>)
    requires l.Typ? && r.Typ? && |l.params| == |r.params| && i <= |l.params|
    ensures res.Ok? ==> |res.value| == |l.params| - i
    ensures res.Ok? ==> forall j :: 0 <= j < |res.value| ==>
      CalcSubstTyp(l.params[i + j], r.params[i + j]) == Ok(res.value[j])
    decreases l, 0, |l.params| - i
  {
    if i == |l.params| then Ok([])
    else
      var s :- CalcSubstTyp(l.params[i], r.params[i]);
      var rest :- CalcSubstParams(l, r, i + 1);
      Ok([s] + rest)
  }

  /** Two leaf types can be matched: wherever both are concrete, at any
      nesting depth, they agree on tag and parameter count. */
  predicate Compatible(l: TypPlus, r: TypPlus) {
    match (l, r)
    case (Typ(lt, lps), Typ(rt, rps)) =>
      lt == rt && |lps| == |rps| && forall i :: 0 <= i < |lps| ==> Compatible(lps[i], rps[i])
    case _ => true
  }

  lemma {:induction false} CompatibleSymmetric(l: TypPlus, r: TypPlus)
    ensures Compatible(l, r) <==> Compatible(r, l)
  {
    match (l, r)
    case (Typ(_, lps), Typ(_, rps)) =>
      if |lps| == |rps| {
        forall i | 0 <= i < |lps| ensures Compatible(lps[i], rps[i]) <==> Compatible(rps[i], lps[i]) {
          CompatibleSymmetric(lps[i], rps[i]);
        }
      }
    case _ =>
  }

  /** `calcSubstTyp` succeeds exactly on compatible types and otherwise fails
      with TypeMismatch; the final `throw` of the original is unreachable. */
  lemma {:induction false} CalcSubstTypOk(l: TypPlus, r: TypPlus)
    ensures CalcSubstTyp(l, r).Ok? <==> Compatible(l, r)
    ensures CalcSubstTyp(l, r).Err? ==> CalcSubstTyp(l, r).error == TypeMismatch
    decreases l, 2, 0
  {
    match (l, r)
    case (Typ(lt, lps), Typ(rt, rps)) =>
      if lt == rt && |lps| == |rps| {
        CalcSubstParamsOk(l, r, 0);
      }
    case _ =>
  }

  lemma {:induction false} CalcSubstParamsOk(l: TypPlus, r: TypPlus, i: nat)
    requires l.Typ? && r.Typ? && |l.params| == |r.params| && i <= |l.params|
    ensures CalcSubstParams(l, r, i).Ok? <==>
      forall j :: i <= j < |l.params| ==> Compatible(l.params[j], r.params[j])
    ensures CalcSubstParams(l, r, i).Err? ==> CalcSubstParams(l, r, i).error == TypeMismatch
    decreases l, 0, |l.params| - i
  {
    if i < |l.params| {
      CalcSubstTypOk(l.params[i], r.params[i]);
      CalcSubstParamsOk(l, r, i + 1);
    }
  }

  /** `Offers(l, r, k, t)`: the match of `l` against `r` meets variable `k` on
      the right facing a concrete type on the left that strips to `t`. */
  predicate Offers(l: TypPlus, r: TypPlus, k: Var, t: TypPlus) {
    match (l, r)
    case (Typ(_, lps), Typ(_, rps)) =>
      exists i :: 0 <= i < |lps| && i < |rps| && Offers(lps[i], rps[i], k, t)
    case (Typ(_, _), TypVar(id)) => id == k && t == StripParams(l)
    case _ => false
  }

  /** Only right-side variables are offered, and only variable-free values. */
  lemma {:induction false} OffersFacts(l: TypPlus, r: TypPlus, k: Var, t: TypPlus)
    requires Offers(l, r, k, t)
    ensures Occurs(k, r) && VarFree(t)
  {
    match (l, r)
    case (Typ(_, lps), Typ(_, rps)) =>
      var i :| 0 <= i < |lps| && i < |rps| && Offers(lps[i], rps[i], k, t);
      OffersFacts(lps[i], rps[i], k, t);
      assert Occurs(k, rps[i]);
    case (Typ(_, _), TypVar(id)) =>
  }

  /** Soundness of `calcSubstTyp`: every binding it returns was offered by
      the match. */
  lemma {:induction false} CalcSubstTypSound(l: TypPlus, r: TypPlus, k: Var)
    requires CalcSubstTyp(l, r).Ok? && k in CalcSubstTyp(l, r).value
    ensures Offers(l, r, k, CalcSubstTyp(l, r).value[k])
    decreases l, 2, 0
  {
    if l.Typ? && r.Typ? {
      var s := CalcSubstTyp(l, r).value;
      assert CalcSubstConcreteTyp(l, r) == Ok(s);
      var ss := CalcSubstParams(l, r, 0).value;
      assert s == MergeSubsts(ss);
      MergeSubstsBindings(ss, k);
      var i :| 0 <= i < |ss| && k in ss[i] && s[k] == ss[i][k];
      assert CalcSubstTyp(l.params[0 + i], r.params[0 + i]) == Ok(ss[i]);
      CalcSubstTypSound(l.params[i], r.params[i], k);
      assert Offers(l.params[i], r.params[i], k, s[k]);
    }
  }

  /** Completeness of `calcSubstTyp`: every offered variable gets a binding. */
  lemma {:induction false} CalcSubstTypComplete(l: TypPlus, r: TypPlus, k: Var, t: TypPlus)
    requires CalcSubstTyp(l, r).Ok? && Offers(l, r, k, t)
    ensures k in CalcSubstTyp(l, r).value
    decreases l, 2, 0
  {
    match (l, r)
    case (Typ(_, lps), Typ(_, rps)) =>
      var ss := CalcSubstParams(l, r, 0).value;
      var i :| 0 <= i < |lps| && i < |rps| && Offers(lps[i], rps[i], k, t);
      assert CalcSubstTyp(lps[i], rps[i]) == Ok(ss[i]);
      CalcSubstTypComplete(lps[i], rps[i], k, t);
      assert k in ss[i];
      MergeSubstsBindings(ss, k);
    case (Typ(_, _), TypVar(id)) =>
    case _ =>
  }

  /** The cases of `calcSubstTyp` that produce no or exactly one binding. */
  lemma CalcSubstTypCases(l: TypPlus, r: TypPlus)
    ensures l.Any? || r.Any? ==> CalcSubstTyp(l, r) == Ok(map[])
    ensures l.TypVar? ==> CalcSubstTyp(l, r) == Ok(map[])
    ensures l.Typ? && r.TypVar? ==> CalcSubstTyp(l, r) == Ok(map[r.id := StripParams(l)])
    ensures l.Typ? && r.Typ? && (l.tag != r.tag || |l.params| != |r.params|) ==>
      CalcSubstTyp(l, r) == Err(TypeMismatch)
  {
  }

  // ---------------------------------------------------------------------------
  // Computing a substitution from two function types

  function CalcSubstPair(p: (TypPlus, TypPlus)): Result<Subst> {
    CalcSubstTyp(p.0, p.1)
  }

  /** A tree of results as one result: the first failing leaf, left to right,
      is the error (the original's `fmap` stops at the first throw). */
  function Collect(t: Tree<Result<Subst>>): (r: Result<Tree<Subst>>)
    ensures r.Ok? <==> forall i :: 0 <= i < |Leaves(t)| ==> Leaves(t)[i].Ok?
    ensures r.Ok? ==> SameShape(t, r.value)
    ensures r.Ok? ==> && |Leaves(r.value)| == |Leaves(t)|
                      && forall i :: 0 <= i < |Leaves(t)| ==> Leaves(r.value)[i] == Leaves(t)[i].value
  {
    match t
    case Leaf(x) =>
      assert Leaves(t)[0] == x;
      if x.Err? then Err(x.error) else Ok(Leaf(x.value))
    case Node(l, r) =>
      var n := |Leaves(l)|;
      assert forall i :: 0 <= i < n ==> Leaves(t)[i] == Leaves(l)[i];
      assert forall i :: 0 <= i < |Leaves(r)| ==> Leaves(t)[n + i] == Leaves(r)[i];
      var cl, cr := Collect(l), Collect(r);
      if cl.Err? then
        Err(cl.error)
      else if cr.Err? then
        Err(cr.error)
      else
        var vl, vr := cl.value, cr.value;
        assert forall i :: 0 <= i < |Leaves(vl)| ==> Leaves(Node(vl, vr))[i] == Leaves(vl)[i];
        assert forall i :: 0 <= i < |Leaves(vr)| ==> Leaves(Node(vl, vr))[|Leaves(vl)| + i] == Leaves(vr)[i];
        Ok(Node(vl, vr))
  }

  /** `calcSubst`: zip the two trees (a shape mismatch propagates), compute
      the substitution of each leaf pair, and fold them with `mergeSubst`. */
  function CalcSubst(l: FT, r: FT): Result<Subst> {
    var zipped :- Zip(l, r);
    var substs :- Collect(Fmap(CalcSubstPair, zipped));
    Ok(Reduce(MergeSubst, substs))
  }

  /** Two function types can be matched: same shape, compatible leaf pairs. */
  predicate LeafwiseCompatible(l: FT, r: FT) {
    match (l, r)
    case (Leaf(a), Leaf(b)) => Compatible(a, b)
    case (Node(ll, lr), Node(rl, rr)) => LeafwiseCompatible(ll, rl) && LeafwiseCompatible(lr, rr)
    case _ => false
  }

  lemma {:induction false} LeafwiseCompatibleSameShape(l: FT, r: FT)
    requires LeafwiseCompatible(l, r)
    ensures SameShape(l, r)
  {
    match (l, r)
    case (Leaf(_), Leaf(_)) =>
    case (Node(ll, lr), Node(rl, rr)) =>
      LeafwiseCompatibleSameShape(ll, rl);
      LeafwiseCompatibleSameShape(lr, rr);
  }

  lemma {:induction false} LeafwiseCompatibleSymmetric(l: FT, r: FT)
    requires LeafwiseCompatible(l, r)
    ensures LeafwiseCompatible(r, l)
  {
    match (l, r)
    case (Leaf(a), Leaf(b)) => CompatibleSymmetric(a, b);
    case (Node(ll, lr), Node(rl, rr)) =>
      LeafwiseCompatibleSymmetric(ll, rl);
      LeafwiseCompatibleSymmetric(lr, rr);
  }

  lemma CalcSubstLeaf(a: TypPlus, b: TypPlus)
    ensures CalcSubst(Leaf(a), Leaf(b)) == CalcSubstTyp(a, b)
  {
  }

  /** On two nodes of matching shapes, `calcSubst` fails iff one half fails,
      and otherwise merges the left half's substitution with the right's. */
  lemma CalcSubstNode(ll: FT, lr: FT, rl: FT, rr: FT)
    requires SameShape(ll, rl) && SameShape(lr, rr)
    ensures CalcSubst(Node(ll, lr), Node(rl, rr)).Ok? <==> CalcSubst(ll, rl).Ok? && CalcSubst(lr, rr).Ok?
    ensures CalcSubst(Node(ll, lr), Node(rl, rr)).Ok? ==>
      CalcSubst(Node(ll, lr), Node(rl, rr)).value == MergeSubst(CalcSubst(ll, rl).value, CalcSubst(lr, rr).value)
  {
    var zl, zr := Zip(ll, rl).value, Zip(lr, rr).value;
    assert Zip(Node(ll, lr), Node(rl, rr)) == Ok(Node(zl, zr));
    assert Fmap(CalcSubstPair, Node(zl, zr)) == Node(Fmap(CalcSubstPair, zl), Fmap(CalcSubstPair, zr));
  }

  /** `calcSubst` fails with ZipShapeMismatch exactly on different shapes,
      fails with TypeMismatch on equal shapes with an incompatible leaf pair,
      and succeeds otherwise. */
  lemma {:induction false} CalcSubstOk(l: FT, r: FT)
    ensures CalcSubst(l, r).Ok? <==> LeafwiseCompatible(l, r)
    ensures CalcSubst(l, r).Err? ==> (CalcSubst(l, r).error == ZipShapeMismatch <==> !SameShape(l, r))
  {
    if !SameShape(l, r) {
      if LeafwiseCompatible(l, r) { LeafwiseCompatibleSameShape(l, r); }
    } else {
      match (l, r)
      case (Leaf(a), Leaf(b)) =>
        CalcSubstTypOk(a, b);
      case (Node(ll, lr), Node(rl, rr)) =>
        CalcSubstOk(ll, rl);
        CalcSubstOk(lr, rr);
        CalcSubstNode(ll, lr, rl, rr);
        CalcSubstSameShapeError(l, r);
    }
  }

  /** With matching shapes the zip cannot fail, so any error is a type mismatch. */
  lemma CalcSubstSameShapeError(l: FT, r: FT)
    requires SameShape(l, r)
    ensures CalcSubst(l, r).Err? ==> CalcSubst(l, r).error == TypeMismatch
  {
    var zipped := Zip(l, r).value;
    var c := Collect(Fmap(CalcSubstPair, zipped));
    if c.Err? {
      var t := Fmap(CalcSubstPair, zipped);
      forall i | 0 <= i < |Leaves(t)| ensures Leaves(t)[i].Err? ==> Leaves(t)[i].error == TypeMismatch {
        assert Leaves(t)[i] == CalcSubstTyp(Leaves(zipped)[i].0, Leaves(zipped)[i].1);
        CalcSubstTypOk(Leaves(zipped)[i].0, Leaves(zipped)[i].1);
      }
      CollectError(t);
    }
  }

  /** A failing `Collect` reports the first failing leaf, left to right. */
  lemma {:induction false} CollectFirstFailure(t: Tree<Result<Subst>>)
    requires Collect(t).Err?
    ensures exists i :: && 0 <= i < |Leaves(t)| && Leaves(t)[i] == Err(Collect(t).error)
                        && forall j :: 0 <= j < i ==> Leaves(t)[j].Ok?
  {
    match t
    case Leaf(x) =>
      assert Leaves(t)[0] == x;
    case Node(l, r) =>
      var n := |Leaves(l)|;
      assert forall i :: 0 <= i < n ==> Leaves(t)[i] == Leaves(l)[i];
      assert forall i :: 0 <= i < |Leaves(r)| ==> Leaves(t)[n + i] == Leaves(r)[i];
      if Collect(l).Err? {
        CollectFirstFailure(l);
        var i :| && 0 <= i < n && Leaves(l)[i] == Err(Collect(l).error)
                 && forall j :: 0 <= j < i ==> Leaves(l)[j].Ok?;
        assert Leaves(t)[i] == Err(Collect(t).error);
      } else {
        CollectFirstFailure(r);
        var i :| && 0 <= i < |Leaves(r)| && Leaves(r)[i] == Err(Collect(r).error)
                 && forall j :: 0 <= j < i ==> Leaves(r)[j].Ok?;
        assert Leaves(t)[n + i] == Err(Collect(t).error);
        forall j | 0 <= j < n + i ensures Leaves(t)[j].Ok? {
          if j >= n { assert Leaves(t)[j] == Leaves(r)[j - n]; }
        }
      }
  }

  /** The leaves a tree of leaf results fails with are all type mismatches. */
  lemma {:induction false} CollectError(t: Tree<Result<Subst>>)
    requires forall i :: 0 <= i < |Leaves(t)| && Leaves(t)[i].Err? ==> Leaves(t)[i].error == TypeMismatch
    ensures Collect(t).Err? ==> Collect(t).error == TypeMismatch
  {
    match t
    case Leaf(x) =>
      assert Leaves(t)[0] == x;
    case Node(l, r) =>
      assert forall i :: 0 <= i < |Leaves(l)| ==> Leaves(t)[i] == Leaves(l)[i];
      assert forall i :: 0 <= i < |Leaves(r)| ==> Leaves(t)[|Leaves(l)| + i] == Leaves(r)[i];
      CollectError(l);
      CollectError(r);
  }

  /** `OffersFT(l, r, k, t)`: some leaf pair of the two trees offers `t` for `k`. */
  predicate OffersFT(l: FT, r: FT, k: Var, t: TypPlus) {
    match (l, r)
    case (Leaf(a), Leaf(b)) => Offers(a, b, k, t)
    case (Node(ll, lr), Node(rl, rr)) => OffersFT(ll, rl, k, t) || OffersFT(lr, rr, k, t)
    case _ => false
  }

  /** Soundness and completeness of `calcSubst`: a variable is bound exactly
      when some leaf pair offers a value for it, and its value is one offered. */
  lemma {:induction false} CalcSubstExact(l: FT, r: FT, k: Var)
    requires CalcSubst(l, r).Ok?
    ensures k in CalcSubst(l, r).value ==> OffersFT(l, r, k, CalcSubst(l, r).value[k])
    ensures forall t :: OffersFT(l, r, k, t) ==> k in CalcSubst(l, r).value
  {
    CalcSubstOk(l, r);
    match (l, r)
    case (Leaf(a), Leaf(b)) =>
      if k in CalcSubst(l, r).value { CalcSubstTypSound(a, b, k); }
      forall t | OffersFT(l, r, k, t) ensures k in CalcSubst(l, r).value {
        CalcSubstTypComplete(a, b, k, t);
      }
    case (Node(ll, lr), Node(rl, rr)) =>
      LeafwiseCompatibleSameShape(ll, rl);
      LeafwiseCompatibleSameShape(lr, rr);
      CalcSubstNode(ll, lr, rl, rr);
      CalcSubstOk(ll, rl);
      CalcSubstOk(lr, rr);
      CalcSubstExact(ll, rl, k);
      CalcSubstExact(lr, rr, k);
  }

  lemma {:induction false} OffersFTFacts(l: FT, r: FT, k: Var, t: TypPlus)
    requires OffersFT(l, r, k, t)
    ensures OccursFT(k, r) && VarFree(t)
  {
    match (l, r)
    case (Leaf(a), Leaf(b)) => OffersFacts(a, b, k, t);
    case (Node(ll, lr), Node(rl, rr)) =>
      if OffersFT(ll, rl, k, t) { OffersFTFacts(ll, rl, k, t); } else { OffersFTFacts(lr, rr, k, t); }
  }

  /** What `calcSubst` returns binds only variables of its RIGHT argument, and
      only to variable-free types. */
  lemma CalcSubstBindsRightVarsOnly(l: FT, r: FT)
    requires CalcSubst(l, r).Ok?
    ensures SubstVarFree(CalcSubst(l, r).value)
    ensures forall k :: k in CalcSubst(l, r).value ==> OccursFT(k, r)
  {
    var s := CalcSubst(l, r).value;
    forall k | k in s ensures VarFree(s[k]) && OccursFT(k, r) {
      CalcSubstExact(l, r, k);
      OffersFTFacts(l, r, k, s[k]);
    }
  }

  /** The example of the original's own documentation comes out reversed:
      matching `x -> y` against `A -> B` binds nothing, and matching `A -> B`
      against `x -> y` binds `x` to A and `y` to B. */
  lemma CalcSubstDirection()
    ensures CalcSubst(Node(Leaf(TypVar("x")), Leaf(TypVar("y"))), Node(Leaf(Typ("A", [])), Leaf(Typ("B", []))))
         == Ok(map[])
    ensures CalcSubst(Node(Leaf(Typ("A", [])), Leaf(Typ("B", []))), Node(Leaf(TypVar("x")), Leaf(TypVar("y"))))
         == Ok(map["x" := Typ("A", []), "y" := Typ("B", [])])
  {
    var a, b, x, y := Leaf(Typ("A", [])), Leaf(Typ("B", [])), Leaf(TypVar("x")), Leaf(TypVar("y"));
    CalcSubstLeaf(x.v, a.v);
    CalcSubstLeaf(y.v, b.v);
    CalcSubstLeaf(a.v, x.v);
    CalcSubstLeaf(b.v, y.v);
    CalcSubstNode(x, y, a, b);
    CalcSubstNode(a, b, x, y);
    assert StripParams(Typ("A", [])) == Typ("A", []);
    assert StripParams(Typ("B", [])) == Typ("B", []);
    assert MergeSubst(map["x" := Typ("A", [])], map["y" := Typ("B", [])])
        == map["x" := Typ("A", []), "y" := Typ("B", [])];
  }
}
