/**
 * The two-pass binding analysis (`performBindingAnalysis`). Pass 1
 * (`analyzeBindingInstances`) records declarations and opens one scope per
 * function, which approximates hoisting; pass 2 (`analyzeBoundInstances`)
 * resolves every reference to the nearest scope that declares its name.
 *
 * Both copies of the analysis are modelled: `Current` is bindinganalyzer.js,
 * `Legacy` the older one in contexthighlighting.js, which registers no
 * `arguments` and has no case for `this`.
 */
module Resolver {
  import opened Base
  import opened Ast
  import opened Scopes

  datatype Variant = Current | Legacy

  /*
   * Pass 1: declarations.
   */

  /** Registers every parameter in the function's own scope, in order. */
  function DeclareParams(ps: seq<Node>, e: EnvId, envs: Envs): (r: Envs)
    requires Valid(envs) && e < |envs|
    ensures Valid(r) && Grows(envs, r) && |r| == |envs|
    ensures forall i :: 0 <= i < |envs| && i != e ==> r[i] == envs[i]
    ensures forall i :: 0 <= i < |ps| ==> BindingName(ps[i]) in r[e].bindings
  {
    if ps == [] then envs
    else
      var e1 := AddBindingInstance(envs, e, BindingName(ps[0]), ps[0].Uid());
      AddGrows(envs, e, BindingName(ps[0]), ps[0].Uid(), true);
      var r := DeclareParams(ps[1..], e, e1);
      GrowsTransitive(envs, e1, r);
      r
  }

  /**
   * Registers a function's name: a declaration's in the enclosing scope
   * `env`, a named expression's in its own scope `fe`.
   */
  function DeclareName(n: Node, env: EnvId, fe: EnvId, envs: Envs): (r: Envs)
    requires IsFunction(n)
    requires Valid(envs) && env < |envs| && fe < |envs|
    ensures Valid(r) && Grows(envs, r) && |r| == |envs|
    ensures forall i :: 0 <= i < |envs| && i != env && i != fe ==> r[i] == envs[i]
  {
    if n.FunctionDeclaration? then
      AddGrows(envs, env, BindingName(n.id), n.id.Uid(), true);
      AddBindingInstance(envs, env, BindingName(n.id), n.id.Uid())
    else if n.optId.Some? then
      AddGrows(envs, fe, BindingName(n.optId.value), n.optId.value.Uid(), true);
      AddBindingInstance(envs, fe, BindingName(n.optId.value), n.optId.value.Uid())
    else envs
  }

  /** What pass 1 does on entering a function before its body: opens the scope and registers names. */
  function EnterFunction(v: Variant, n: Node, env: EnvId, envs: Envs): (r: Envs)
    requires IsFunction(n)
    requires Valid(envs) && env < |envs|
    ensures Valid(r) && Grows(envs, r) && |r| == |envs| + 1
    ensures forall i :: 0 <= i < |envs| && i != env ==> r[i] == envs[i]
    ensures r[|envs|].parent == Some(env) && r[|envs|].scope == n.Uid()
    ensures forall i :: 0 <= i < |n.params| ==> BindingName(n.params[i]) in r[|envs|].bindings
  {
    var fe := |envs|;
    var e2 := OpenScope(v, n, env, envs);
    var e3 := DeclareName(n, env, fe, e2);
    GrowsTransitive(envs, e2, e3);
    var e4 := DeclareParams(n.params, fe, e3);
    GrowsTransitive(e2, e3, e4);
    GrowsTransitive(envs, e3, e4);
    e4
  }

  /** Opens the function's scope under `env` and, in the current variant, declares its `arguments` in `env`. */
  function OpenScope(v: Variant, n: Node, env: EnvId, envs: Envs): (r: Envs)
    requires Valid(envs) && env < |envs|
    ensures Valid(r) && Grows(envs, r) && |r| == |envs| + 1
    ensures forall i :: 0 <= i < |envs| && i != env ==> r[i] == envs[i]
    ensures r[|envs|] == Env(n.Uid(), Some(env), map[])
  {
    var e1 := NewEnv(envs, n.Uid(), Some(env));
    NewEnvGrows(envs, n.Uid(), Some(env));
    AddGrows(e1, env, "arguments", n.Uid(), true);
    if v == Current then AddBindingInstance(e1, env, "arguments", n.Uid()) else e1
  }

  /**
   * `analyzeBindingInstances(node, env)`: returns the node with every
   * function it reaches annotated with its own scope, and the arena after
   * the declarations it found. Only the current scope and scopes it opens
   * change.
   */
  function Declare(v: Variant, n: Node, env: EnvId, envs: Envs): (r: (Node, Envs))
    requires Valid(envs) && env < |envs|
    ensures Valid(r.1) && Grows(envs, r.1)
    ensures forall i :: 0 <= i < |envs| && i != env ==> r.1[i] == envs[i]
    ensures forall i :: |envs| <= i < |r.1| ==> r.1[i].parent.Some?
    ensures r.0.info.uid == n.info.uid && r.0.info.range == n.info.range
    ensures !IsFunction(n) ==> r.0.info == n.info
    ensures IsFunction(r.0) == IsFunction(n)
    decreases n, 2
  {
    if IsFunction(n) then DeclareFunction(v, n, env, envs)
    else if n.VariableDeclarator? then DeclareDeclarator(v, n, env, envs)
    else
      var (cs, e1) := DeclareAll(v, Children(n), n, env, envs);
      (WithChildren(n, cs), e1)
  }

  /** A function opens its scope, records it in the node, and pass 1 goes on into its body in that scope. */
  function DeclareFunction(v: Variant, n: Node, env: EnvId, envs: Envs): (r: (Node, Envs))
    requires IsFunction(n) && Valid(envs) && env < |envs|
    ensures Valid(r.1) && Grows(envs, r.1)
    ensures forall i :: 0 <= i < |envs| && i != env ==> r.1[i] == envs[i]
    ensures forall i :: |envs| <= i < |r.1| ==> r.1[i].parent.Some?
    ensures r.0.info.uid == n.info.uid && r.0.info.range == n.info.range
    ensures IsFunction(r.0)
    decreases n, 1
  {
    var fe := |envs|;
    var e4 := EnterFunction(v, n, env, envs);
    var (body, e5) := Declare(v, n.fnBody, fe, e4);
    GrowsTransitive(envs, e4, e5);
    (n.(info := n.info.(bindings := Some(fe)), fnBody := body), e5)
  }

  /** A declarator declares its name in the current scope, then pass 1 goes on into its initialiser. */
  function DeclareDeclarator(v: Variant, n: Node, env: EnvId, envs: Envs): (r: (Node, Envs))
    requires n.VariableDeclarator? && Valid(envs) && env < |envs|
    ensures Valid(r.1) && Grows(envs, r.1)
    ensures forall i :: 0 <= i < |envs| && i != env ==> r.1[i] == envs[i]
    ensures forall i :: |envs| <= i < |r.1| ==> r.1[i].parent.Some?
    ensures r.0.info == n.info && r.0.VariableDeclarator?
    decreases n, 1
  {
    var e1 := AddBindingInstance(envs, env, BindingName(n.id), n.Uid());
    AddGrows(envs, env, BindingName(n.id), n.Uid(), true);
    if n.init.Some? then
      var (init, e2) := Declare(v, n.init.value, env, e1);
      GrowsTransitive(envs, e1, e2);
      (n.(init := Some(init)), e2)
    else (n, e1)
  }

  /** Pass 1 over a list of siblings, left to right, in the same scope. */
  function DeclareAll(v: Variant, cs: seq<Node>, ghost bound: Node, env: EnvId, envs: Envs)
    : (r: (seq<Node>, Envs))
    requires forall i :: 0 <= i < |cs| ==> cs[i] < bound
    requires Valid(envs) && env < |envs|
    ensures Valid(r.1) && Grows(envs, r.1) && |r.0| == |cs|
    ensures forall i :: 0 <= i < |envs| && i != env ==> r.1[i] == envs[i]
    ensures forall i :: |envs| <= i < |r.1| ==> r.1[i].parent.Some?
    decreases bound, 0, |cs|
  {
    if cs == [] then ([], envs)
    else
      var (c, e1) := Declare(v, cs[0], env, envs);
      var (rest, e2) := DeclareAll(v, cs[1..], bound, env, e1);
      GrowsTransitive(envs, e1, e2);
      ([c] + rest, e2)
  }

  /**
   * What pass 1 declares in the scope it runs in, in order: every `var`
   * declarator reached without entering a function (its instance is the
   * declarator), and for each function met there its `arguments` (Current
   * only) and, for a declaration, its name. This is the hoisting
   * approximation: a `var` in a nested block lands in the enclosing scope.
   */
  function Hoisted(v: Variant, n: Node): seq<Decl>
    decreases n, 1
  {
    if IsFunction(n) then
      (if v == Current then [("arguments", n.Uid())] else [])
      + (if n.FunctionDeclaration? then [(BindingName(n.id), n.id.Uid())] else [])
    else if n.VariableDeclarator? then
      [(BindingName(n.id), n.Uid())] + (if n.init.Some? then Hoisted(v, n.init.value) else [])
    else HoistedAll(v, Children(n), n)
  }

  function HoistedAll(v: Variant, cs: seq<Node>, ghost bound: Node): seq<Decl>
    requires forall i :: 0 <= i < |cs| ==> cs[i] < bound
    decreases bound, 0, |cs|
  {
    if cs == [] then [] else Hoisted(v, cs[0]) + HoistedAll(v, cs[1..], bound)
  }

  /** One declaration per parameter, the parameter being its own instance. */
  function ParamDecls(ps: seq<Node>): seq<Decl> {
    seq(|ps|, i requires 0 <= i < |ps| => (BindingName(ps[i]), ps[i].Uid()))
  }

  /** A named function expression declares its own name in its own scope. */
  function SelfDecl(n: Node): seq<Decl>
    requires IsFunction(n)
  {
    if n.FunctionExpression? && n.optId.Some? then [(BindingName(n.optId.value), n.optId.value.Uid())] else []
  }

  /**
   * What a function's own scope declares: the name of a named function
   * expression, then the parameters, then what its body hoists.
   */
  function OwnDecls(v: Variant, n: Node): seq<Decl>
    requires IsFunction(n)
  {
    SelfDecl(n) + ParamDecls(n.params) + Hoisted(v, n.fnBody)
  }

  lemma {:induction false} DeclareParamsDecls(ps: seq<Node>, e: EnvId, envs: Envs)
    requires Valid(envs) && e < |envs|
    ensures DeclareParams(ps, e, envs)[e] == WithDecls(envs[e], ParamDecls(ps))
  {
    if ps != [] {
      var e1 := AddBindingInstance(envs, e, BindingName(ps[0]), ps[0].Uid());
      AddIsWithDecl(envs, e, BindingName(ps[0]), ps[0].Uid());
      DeclareParamsDecls(ps[1..], e, e1);
      assert ParamDecls(ps)[1..] == ParamDecls(ps[1..]);
    }
  }

  /**
   * Entering a function declares its `arguments` (Current only) and a
   * declaration's name in the enclosing scope, and a named expression's
   * name and the parameters in the new scope, whose parent is the
   * enclosing one.
   */
  lemma EnterFunctionDecls(v: Variant, n: Node, env: EnvId, envs: Envs)
    requires IsFunction(n)
    requires Valid(envs) && env < |envs|
    ensures var r := EnterFunction(v, n, env, envs);
      && r[env] == WithDecls(envs[env], Hoisted(v, n))
      && r[|envs|] == WithDecls(Env(n.Uid(), Some(env), map[]), SelfDecl(n) + ParamDecls(n.params))
  {
    var fe := |envs|;
    var e2 := OpenScope(v, n, env, envs);
    OpenScopeDecls(v, n, env, envs);
    var e3 := DeclareName(n, env, fe, e2);
    DeclareNameDecls(n, env, fe, e2);
    DeclareParamsDecls(n.params, fe, e3);
    var args := if v == Current then [("arguments", n.Uid())] else [];
    var decl := if n.FunctionDeclaration? then [(BindingName(n.id), n.id.Uid())] else [];
    assert Hoisted(v, n) == args + decl;
    WithDeclsAppend(envs[env], args, decl);
    WithDeclsAppend(Env(n.Uid(), Some(env), map[]), SelfDecl(n), ParamDecls(n.params));
  }

  /** Opening a function's scope declares `arguments` in the enclosing scope in the current variant, and nothing else. */
  lemma OpenScopeDecls(v: Variant, n: Node, env: EnvId, envs: Envs)
    requires Valid(envs) && env < |envs|
    ensures OpenScope(v, n, env, envs)[env]
         == WithDecls(envs[env], if v == Current then [("arguments", n.Uid())] else [])
  {
    var e1 := NewEnv(envs, n.Uid(), Some(env));
    AddIsWithDecl(e1, env, "arguments", n.Uid());
    assert e1[env] == envs[env];
  }

  /** A declaration's name goes to the enclosing scope, a named expression's name to its own scope. */
  lemma DeclareNameDecls(n: Node, env: EnvId, fe: EnvId, envs: Envs)
    requires IsFunction(n) && Valid(envs) && env < |envs| && fe < |envs| && env != fe
    ensures DeclareName(n, env, fe, envs)[env]
         == WithDecls(envs[env], if n.FunctionDeclaration? then [(BindingName(n.id), n.id.Uid())] else [])
    ensures DeclareName(n, env, fe, envs)[fe] == WithDecls(envs[fe], SelfDecl(n))
  {
    if n.FunctionDeclaration? {
      AddIsWithDecl(envs, env, BindingName(n.id), n.id.Uid());
    } else if n.optId.Some? {
      AddIsWithDecl(envs, fe, BindingName(n.optId.value), n.optId.value.Uid());
    }
  }

  /**
   * Pass 1 changes the scope it runs in by exactly the declarations
   * `Hoisted` lists, in that order.
   */
  lemma {:induction false} DeclareHoists(v: Variant, n: Node, env: EnvId, envs: Envs)
    requires Valid(envs) && env < |envs|
    ensures Declare(v, n, env, envs).1[env] == WithDecls(envs[env], Hoisted(v, n))
    decreases n, 1
  {
    if IsFunction(n) {
      EnterFunctionDecls(v, n, env, envs);
    } else if n.VariableDeclarator? {
      var d := (BindingName(n.id), n.Uid());
      var e1 := AddBindingInstance(envs, env, d.0, d.1);
      AddIsWithDecl(envs, env, d.0, d.1);
      if n.init.Some? {
        DeclareHoists(v, n.init.value, env, e1);
        assert ([d] + Hoisted(v, n.init.value))[1..] == Hoisted(v, n.init.value);
      } else {
        assert ([d] + [])[1..] == [];
      }
    } else {
      DeclareAllHoists(v, Children(n), n, env, envs);
    }
  }

  lemma {:induction false} DeclareAllHoists(v: Variant, cs: seq<Node>, bound: Node, env: EnvId, envs: Envs)
    requires forall i :: 0 <= i < |cs| ==> cs[i] < bound
    requires Valid(envs) && env < |envs|
    ensures DeclareAll(v, cs, bound, env, envs).1[env] == WithDecls(envs[env], HoistedAll(v, cs, bound))
    decreases bound, 0, |cs|
  {
    if cs != [] {
      var (c, e1) := Declare(v, cs[0], env, envs);
      DeclareHoists(v, cs[0], env, envs);
      DeclareAllHoists(v, cs[1..], bound, env, e1);
      WithDeclsAppend(envs[env], Hoisted(v, cs[0]), HoistedAll(v, cs[1..], bound));
    }
  }

  /**
   * Pass 1 on a function opens the next scope of the arena, records it in
   * the node, links it to the enclosing scope and fills it with exactly the
   * function's own declarations.
   */
  lemma DeclareOpensScope(v: Variant, n: Node, env: EnvId, envs: Envs)
    requires IsFunction(n)
    requires Valid(envs) && env < |envs|
    ensures var r := Declare(v, n, env, envs);
      && r.0.info.bindings == Some(|envs|)
      && |envs| < |r.1|
      && r.1[|envs|] == WithDecls(Env(n.Uid(), Some(env), map[]), OwnDecls(v, n))
  {
    var fe := |envs|;
    var e4 := EnterFunction(v, n, env, envs);
    EnterFunctionDecls(v, n, env, envs);
    DeclareHoists(v, n.fnBody, fe, e4);
    WithDeclsAppend(Env(n.Uid(), Some(env), map[]), SelfDecl(n) + ParamDecls(n.params), Hoisted(v, n.fnBody));
  }

  /**
   * Function names and declarator names are plain identifiers, as the
   * parser produces them for ECMAScript 5.
   */
  predicate NamesAreIdentifiers(n: Node)
    decreases n, 1
  {
    && (n.FunctionDeclaration? ==> n.id.Identifier?)
    && (n.FunctionExpression? && n.optId.Some? ==> n.optId.value.Identifier?)
    && (n.VariableDeclarator? ==> n.id.Identifier?)
    && forall i :: 0 <= i < |Children(n)| ==> NamesAreIdentifiers(Children(n)[i])
  }

  /** After pass 1 every function that pass 2 will reach owns a scope declaring its parameters. */
  lemma {:induction false} DeclareAnnotates(v: Variant, n: Node, env: EnvId, envs: Envs)
    requires Valid(envs) && env < |envs| && NamesAreIdentifiers(n)
    ensures var r := Declare(v, n, env, envs); Annotated(r.0, r.1)
    decreases n, 1
  {
    if IsFunction(n) {
      DeclareFunctionAnnotates(v, n, env, envs);
    } else if n.VariableDeclarator? {
      DeclaratorAnnotates(v, n, env, envs);
    } else {
      DeclareAllAnnotates(v, Children(n), n, env, envs);
      var (cs, e1) := DeclareAll(v, Children(n), n, env, envs);
      assert Children(WithChildren(n, cs)) == cs;
      ChildrenAnnotated(WithChildren(n, cs), e1);
    }
  }

  lemma {:induction false} DeclareFunctionAnnotates(v: Variant, n: Node, env: EnvId, envs: Envs)
    requires Valid(envs) && env < |envs| && NamesAreIdentifiers(n) && IsFunction(n)
    ensures var r := Declare(v, n, env, envs); Annotated(r.0, r.1)
    decreases n, 0
  {
    var fe := |envs|;
    var e4 := EnterFunction(v, n, env, envs);
    var (body, e5) := Declare(v, n.fnBody, fe, e4);
    var m := n.(info := n.info.(bindings := Some(fe)), fnBody := body);
    assert Declare(v, n, env, envs) == (m, e5);
    FunctionNamesAreIdentifiers(n);
    DeclareAnnotates(v, n.fnBody, fe, e4);
    OwnsScopeGrows(m.info, n.params, e4, e5);
    if FunctionId(m).Some? { IdentifierAnnotated(FunctionId(m).value, e5); }
    FunctionAnnotated(m, e5);
  }

  lemma FunctionNamesAreIdentifiers(n: Node)
    requires IsFunction(n) && NamesAreIdentifiers(n)
    ensures NamesAreIdentifiers(n.fnBody)
    ensures FunctionId(n).Some? ==> FunctionId(n).value.Identifier?
  {
    assert n.fnBody == Children(n)[|Children(n)| - 1];
  }

  lemma OwnsScopeGrows(info: Info, params: seq<Node>, a: Envs, b: Envs)
    requires info.bindings.Some? && info.bindings.value < |a|
    requires forall i :: 0 <= i < |params| ==> BindingName(params[i]) in a[info.bindings.value].bindings
    requires Grows(a, b)
    ensures OwnsScope(info, params, b)
  {
  }

  lemma IdentifierAnnotated(n: Node, envs: Envs)
    requires n.Identifier?
    ensures Annotated(n, envs)
  {
  }

  /** A function is annotated when it owns its scope and its name and body are annotated. */
  lemma FunctionAnnotated(n: Node, envs: Envs)
    requires IsFunction(n) && OwnsScope(n.info, n.params, envs) && Annotated(n.fnBody, envs)
    requires FunctionId(n).Some? ==> Annotated(FunctionId(n).value, envs)
    ensures Annotated(n, envs)
  {
  }

  lemma {:induction false} DeclaratorAnnotates(v: Variant, n: Node, env: EnvId, envs: Envs)
    requires Valid(envs) && env < |envs| && NamesAreIdentifiers(n) && n.VariableDeclarator?
    ensures var r := Declare(v, n, env, envs); Annotated(r.0, r.1)
    decreases n, 0
  {
    var e1 := AddBindingInstance(envs, env, BindingName(n.id), n.Uid());
    if n.init.Some? {
      var (init, e2) := Declare(v, n.init.value, env, e1);
      assert Declare(v, n, env, envs) == (n.(init := Some(init)), e2);
      assert NamesAreIdentifiers(n.init.value) by { assert n.init.value == Children(n)[1]; }
      DeclareAnnotates(v, n.init.value, env, e1);
      IdentifierAnnotated(n.id, e2);
      DeclaratorChildrenAnnotated(n.(init := Some(init)), e2);
    } else {
      assert Declare(v, n, env, envs) == (n, e1);
      IdentifierAnnotated(n.id, e1);
      DeclaratorChildrenAnnotated(n, e1);
    }
  }

  lemma DeclaratorChildrenAnnotated(n: Node, envs: Envs)
    requires n.VariableDeclarator? && Annotated(n.id, envs)
    requires n.init.Some? ==> Annotated(n.init.value, envs)
    ensures Annotated(n, envs)
  {
    if n.init.Some? {
      assert Children(n) == [n.id, n.init.value];
    } else {
      assert Children(n) == [n.id];
    }
  }

  /** For kinds without a case of their own, annotated children make an annotated node. */
  lemma ChildrenAnnotated(n: Node, envs: Envs)
    requires !IsFunction(n)
    requires forall i :: 0 <= i < |Children(n)| ==> Annotated(Children(n)[i], envs)
    ensures Annotated(n, envs)
  {
    if n.Property? {
      assert n.value == Children(n)[1];
    } else if n.MemberExpression? {
      assert n.obj == Children(n)[0] && n.property == Children(n)[1];
    }
  }

  lemma {:induction false} DeclareAllAnnotates(v: Variant, cs: seq<Node>, bound: Node, env: EnvId, envs: Envs)
    requires forall i :: 0 <= i < |cs| ==> cs[i] < bound
    requires Valid(envs) && env < |envs|
    requires forall i :: 0 <= i < |cs| ==> NamesAreIdentifiers(cs[i])
    ensures forall i :: 0 <= i < |cs| ==>
      Annotated(DeclareAll(v, cs, bound, env, envs).0[i], DeclareAll(v, cs, bound, env, envs).1)
    decreases bound, 0, |cs|
  {
    if cs != [] {
      var (c, e1) := Declare(v, cs[0], env, envs);
      DeclareAnnotates(v, cs[0], env, envs);
      var (rest, e2) := DeclareAll(v, cs[1..], bound, env, e1);
      DeclareAllAnnotates(v, cs[1..], bound, env, e1);
      AnnotatedGrows(c, e1, e2);
      assert DeclareAll(v, cs, bound, env, envs) == ([c] + rest, e2);
      forall i | 0 <= i < |cs| ensures Annotated(([c] + rest)[i], e2) {
        if i > 0 {
          assert ([c] + rest)[i] == rest[i - 1];
          assert Annotated(rest[i - 1], e2);
        }
      }
    }
  }

  /*
   * Pass 2: references.
   */

  /**
   * Every function that pass 2 reaches already owns a scope of the arena
   * (`node.bindings`) in which its parameters are declared, which is what
   * pass 1 leaves behind. Follows the nodes pass 2 visits.
   */
  predicate Annotated(n: Node, envs: Envs)
    decreases n, 1
  {
    match n
    case FunctionDeclaration(info, id, params, body) =>
      OwnsScope(info, params, envs) && Annotated(id, envs) && Annotated(body, envs)
    case FunctionExpression(info, id, params, body) =>
      OwnsScope(info, params, envs) && (id.Some? ==> Annotated(id.value, envs)) && Annotated(body, envs)
    case Property(_, _, value) => Annotated(value, envs)
    case MemberExpression(_, obj, property, computed) =>
      Annotated(obj, envs) && (computed ==> Annotated(property, envs))
    case _ => forall i :: 0 <= i < |Children(n)| ==> Annotated(Children(n)[i], envs)
  }

  /** The function owns an existing scope that declares each of its parameters. */
  predicate OwnsScope(info: Info, params: seq<Node>, envs: Envs) {
    && info.bindings.Some? && info.bindings.value < |envs|
    && forall i :: 0 <= i < |params| ==> BindingName(params[i]) in envs[info.bindings.value].bindings
  }

  lemma {:induction false} AnnotatedGrows(n: Node, a: Envs, b: Envs)
    requires Annotated(n, a) && Grows(a, b)
    ensures Annotated(n, b)
    decreases n, 1
  {
    match n
    case FunctionDeclaration(info, id, params, body) =>
      AnnotatedGrows(id, a, b);
      AnnotatedGrows(body, a, b);
    case FunctionExpression(info, id, params, body) =>
      if id.Some? { AnnotatedGrows(id.value, a, b); }
      AnnotatedGrows(body, a, b);
    case Property(_, _, value) => AnnotatedGrows(value, a, b);
    case MemberExpression(_, obj, property, computed) =>
      AnnotatedGrows(obj, a, b);
      if computed { AnnotatedGrows(property, a, b); }
    case Identifier(_, _) =>
    case ThisExpression(_) =>
    case Literal(_) =>
    case Program(_, _) => AnnotatedChildrenGrow(n, a, b);
    case VariableDeclarator(_, _, _) => AnnotatedChildrenGrow(n, a, b);
    case Other(_, _, _) => AnnotatedChildrenGrow(n, a, b);
  }

  lemma {:induction false} AnnotatedChildrenGrow(n: Node, a: Envs, b: Envs)
    requires forall i :: 0 <= i < |Children(n)| ==> Annotated(Children(n)[i], a)
    requires Grows(a, b)
    ensures forall i :: 0 <= i < |Children(n)| ==> Annotated(Children(n)[i], b)
    decreases n, 0
  {
    forall i | 0 <= i < |Children(n)| ensures Annotated(Children(n)[i], b) {
      AnnotatedGrows(Children(n)[i], a, b);
    }
  }

  /** Marks each parameter as bound by the function's scope, without recording it anywhere. */
  function BindParams(ps: seq<Node>, fe: EnvId): (r: seq<Node>)
    ensures |r| == |ps|
    ensures forall i :: 0 <= i < |ps| ==> r[i] == ps[i].(info := ps[i].info.(boundIn := Some(fe)))
  {
    seq(|ps|, i requires 0 <= i < |ps| => ps[i].(info := ps[i].info.(boundIn := Some(fe))))
  }

  /**
   * `analyzeBoundInstances(node, env)`: returns the node with the
   * references it reaches annotated with their scope (`boundIn`), and the
   * arena with those references recorded. No scope is opened.
   */
  function Resolve(v: Variant, n: Node, env: EnvId, envs: Envs): (r: (Node, Envs))
    requires Valid(envs) && env < |envs| && Annotated(n, envs)
    ensures Valid(r.1) && Grows(envs, r.1) && |r.1| == |envs|
    ensures r.0.info == n.info.(boundIn := r.0.info.boundIn)
    decreases n, 1
  {
    match n
    case Identifier(_, _) => BindIdentifier(n, env, envs)
    case FunctionDeclaration(info, id, params, body) =>
      var fe := info.bindings.value;
      var (body', e1) := Resolve(v, body, fe, envs);
      AnnotatedGrows(id, envs, e1);
      var (id', e2) := Resolve(v, id, fe, e1);
      GrowsTransitive(envs, e1, e2);
      (FunctionDeclaration(info, id', BindParams(params, fe), body'), e2)
    case FunctionExpression(info, id, params, body) =>
      var fe := info.bindings.value;
      var (body', e1) := Resolve(v, body, fe, envs);
      if id.Some? then
        AnnotatedGrows(id.value, envs, e1);
        var (id', e2) := Resolve(v, id.value, fe, e1);
        GrowsTransitive(envs, e1, e2);
        (FunctionExpression(info, Some(id'), BindParams(params, fe), body'), e2)
      else
        (FunctionExpression(info, None, BindParams(params, fe), body'), e1)
    case Property(info, key, value) =>
      var (value', e1) := Resolve(v, value, env, envs);
      (Property(info, key, value'), e1)
    case ThisExpression(_) => BindThis(v, n, env, envs)
    case MemberExpression(info, obj, property, computed) =>
      var (obj', e1) := Resolve(v, obj, env, envs);
      if computed then
        AnnotatedGrows(property, envs, e1);
        var (property', e2) := Resolve(v, property, env, e1);
        GrowsTransitive(envs, e1, e2);
        (MemberExpression(info, obj', property', computed), e2)
      else
        (MemberExpression(info, obj', property, computed), e1)
    case _ =>
      var (cs, e1) := ResolveAll(v, Children(n), n, env, envs);
      (WithChildren(n, cs), e1)
  }

  /** An identifier is bound in the nearest scope declaring its name, and recorded there. */
  function BindIdentifier(n: Node, env: EnvId, envs: Envs): (r: (Node, Envs))
    requires Valid(envs) && env < |envs| && n.Identifier?
    ensures Valid(r.1) && Grows(envs, r.1) && |r.1| == |envs|
    ensures r.0.info == n.info.(boundIn := r.0.info.boundIn)
  {
    var (e1, h) := FindBindingEnv(envs, env, n.name);
    FindGrows(envs, env, n.name);
    AddGrows(e1, h, n.name, n.Uid(), false);
    (Identifier(n.info.(boundIn := Some(h)), n.name), AddBoundInstance(e1, h, n.name, n.Uid()))
  }

  /** bindinganalyzer.js binds `this` in the current scope; contexthighlighting.js leaves it alone. */
  function BindThis(v: Variant, n: Node, env: EnvId, envs: Envs): (r: (Node, Envs))
    requires Valid(envs) && env < |envs| && n.ThisExpression?
    ensures Valid(r.1) && Grows(envs, r.1) && |r.1| == |envs|
    ensures r.0.info == n.info.(boundIn := r.0.info.boundIn)
  {
    if v == Current then
      AddGrows(envs, env, "this", n.Uid(), false);
      (ThisExpression(n.info.(boundIn := Some(env))), AddBoundInstance(envs, env, "this", n.Uid()))
    else (n, envs)
  }

  /** Pass 2 over a list of siblings, left to right. */
  function ResolveAll(v: Variant, cs: seq<Node>, ghost bound: Node, env: EnvId, envs: Envs)
    : (r: (seq<Node>, Envs))
    requires forall i :: 0 <= i < |cs| ==> cs[i] < bound
    requires Valid(envs) && env < |envs|
    requires forall i :: 0 <= i < |cs| ==> Annotated(cs[i], envs)
    ensures Valid(r.1) && Grows(envs, r.1) && |r.1| == |envs| && |r.0| == |cs|
    decreases bound, 0, |cs|
  {
    if cs == [] then ([], envs)
    else
      var (c, e1) := Resolve(v, cs[0], env, envs);
      AnnotatedSeqGrows(cs[1..], envs, e1);
      var (rest, e2) := ResolveAll(v, cs[1..], bound, env, e1);
      GrowsTransitive(envs, e1, e2);
      ([c] + rest, e2)
  }

  lemma AnnotatedSeqGrows(cs: seq<Node>, a: Envs, b: Envs)
    requires forall i :: 0 <= i < |cs| ==> Annotated(cs[i], a)
    requires Grows(a, b)
    ensures forall i :: 0 <= i < |cs| ==> Annotated(cs[i], b)
  {
    forall i | 0 <= i < |cs| ensures Annotated(cs[i], b) {
      AnnotatedGrows(cs[i], a, b);
    }
  }

  /*
   * What pass 2 records and what it annotates.
   */

  /**
   * The references pass 2 records: the identifiers it visits and, in the
   * current variant, every `this`. Parameters, property keys and the
   * property of a non-computed member access are never recorded.
   */
  function Refs(v: Variant, n: Node): set<NodeId>
    decreases n, 1
  {
    match n
    case Identifier(_, _) => {n.Uid()}
    case ThisExpression(_) => if v == Current then {n.Uid()} else {}
    case FunctionDeclaration(_, id, _, body) => Refs(v, body) + Refs(v, id)
    case FunctionExpression(_, id, _, body) => Refs(v, body) + (if id.Some? then Refs(v, id.value) else {})
    case Property(_, _, value) => Refs(v, value)
    case MemberExpression(_, obj, property, computed) =>
      Refs(v, obj) + (if computed then Refs(v, property) else {})
    case _ => RefsAll(v, Children(n), n)
  }

  function RefsAll(v: Variant, cs: seq<Node>, ghost bound: Node): set<NodeId>
    requires forall i :: 0 <= i < |cs| ==> cs[i] < bound
    decreases bound, 0, |cs|
  {
    if cs == [] then {} else Refs(v, cs[0]) + RefsAll(v, cs[1..], bound)
  }

  /** Pass 2 records exactly the references `Refs` lists, and nothing else. */
  lemma {:induction false} ResolveRecords(v: Variant, n: Node, env: EnvId, envs: Envs)
    requires Valid(envs) && env < |envs| && Annotated(n, envs)
    ensures References(Resolve(v, n, env, envs).1) == References(envs) + Refs(v, n)
    decreases n, 1
  {
    match n
    case Identifier(info, name) =>
      var (e1, h) := FindBindingEnv(envs, env, name);
      FindKeepsReferences(envs, env, name);
      AddBoundReferences(e1, h, name, n.Uid());
    case ThisExpression(_) =>
      if v == Current { AddBoundReferences(envs, env, "this", n.Uid()); }
    case FunctionDeclaration(_, _, _, _) => ResolveFunctionRecords(v, n, env, envs);
    case FunctionExpression(_, _, _, _) => ResolveFunctionRecords(v, n, env, envs);
    case Property(_, _, value) => ResolveRecords(v, value, env, envs);
    case MemberExpression(_, _, _, _) => ResolveMemberRecords(v, n, env, envs);
    case Program(_, _) => ResolveAllRecords(v, Children(n), n, env, envs);
    case VariableDeclarator(_, _, _) => ResolveAllRecords(v, Children(n), n, env, envs);
    case Literal(_) => ResolveAllRecords(v, Children(n), n, env, envs);
    case Other(_, _, _) => ResolveAllRecords(v, Children(n), n, env, envs);
  }

  lemma {:induction false} ResolveFunctionRecords(v: Variant, n: Node, env: EnvId, envs: Envs)
    requires Valid(envs) && env < |envs| && Annotated(n, envs) && IsFunction(n)
    ensures References(Resolve(v, n, env, envs).1) == References(envs) + Refs(v, n)
    decreases n, 0
  {
    var fe := n.info.bindings.value;
    var (body', e1) := Resolve(v, n.fnBody, fe, envs);
    ResolveRecords(v, n.fnBody, fe, envs);
    var id := FunctionId(n);
    if id.Some? {
      AnnotatedGrows(id.value, envs, e1);
      var e2 := Resolve(v, id.value, fe, e1).1;
      ResolveRecords(v, id.value, fe, e1);
      UnionChain(References(envs), References(e1), References(e2), Refs(v, n.fnBody), Refs(v, id.value));
    }
  }

  lemma UnionChain<T>(a: set<T>, b: set<T>, c: set<T>, x: set<T>, y: set<T>)
    requires b == a + x && c == b + y
    ensures c == a + (x + y)
  {
  }

  lemma {:induction false} ResolveMemberRecords(v: Variant, n: Node, env: EnvId, envs: Envs)
    requires Valid(envs) && env < |envs| && Annotated(n, envs) && n.MemberExpression?
    ensures References(Resolve(v, n, env, envs).1) == References(envs) + Refs(v, n)
    decreases n, 0
  {
    var (obj', e1) := Resolve(v, n.obj, env, envs);
    ResolveRecords(v, n.obj, env, envs);
    if n.computed {
      AnnotatedGrows(n.property, envs, e1);
      var e2 := Resolve(v, n.property, env, e1).1;
      ResolveRecords(v, n.property, env, e1);
      UnionChain(References(envs), References(e1), References(e2), Refs(v, n.obj), Refs(v, n.property));
    }
  }

  lemma {:induction false} ResolveAllRecords(v: Variant, cs: seq<Node>, bound: Node, env: EnvId, envs: Envs)
    requires forall i :: 0 <= i < |cs| ==> cs[i] < bound
    requires Valid(envs) && env < |envs|
    requires forall i :: 0 <= i < |cs| ==> Annotated(cs[i], envs)
    ensures References(ResolveAll(v, cs, bound, env, envs).1) == References(envs) + RefsAll(v, cs, bound)
    decreases bound, 0, |cs|
  {
    if cs != [] {
      var (c, e1) := Resolve(v, cs[0], env, envs);
      ResolveRecords(v, cs[0], env, envs);
      AnnotatedSeqGrows(cs[1..], envs, e1);
      ResolveAllRecords(v, cs[1..], bound, env, e1);
      UnionChain(References(envs), References(e1), References(ResolveAll(v, cs[1..], bound, env, e1).1),
                 Refs(v, cs[0]), RefsAll(v, cs[1..], bound));
    }
  }

  /** Pass 2 declares nothing: every declaring occurrence list is as pass 1 left it. */
  lemma {:induction false} ResolveKeepsDecls(v: Variant, n: Node, env: EnvId, envs: Envs)
    requires Valid(envs) && env < |envs| && Annotated(n, envs)
    ensures SameDecls(envs, Resolve(v, n, env, envs).1)
    decreases n, 1
  {
    match n
    case Identifier(info, name) =>
      var (e1, h) := FindBindingEnv(envs, env, name);
      FindKeepsDecls(envs, env, name);
      AddBoundKeepsDecls(e1, h, name, n.Uid());
      SameDeclsTransitive(envs, e1, AddBoundInstance(e1, h, name, n.Uid()));
    case ThisExpression(_) =>
      if v == Current { AddBoundKeepsDecls(envs, env, "this", n.Uid()); }
    case FunctionDeclaration(info, id, params, body) =>
      var fe := info.bindings.value;
      var (body', e1) := Resolve(v, body, fe, envs);
      ResolveKeepsDecls(v, body, fe, envs);
      AnnotatedGrows(id, envs, e1);
      ResolveKeepsDecls(v, id, fe, e1);
      SameDeclsTransitive(envs, e1, Resolve(v, id, fe, e1).1);
    case FunctionExpression(info, id, params, body) =>
      var fe := info.bindings.value;
      var (body', e1) := Resolve(v, body, fe, envs);
      ResolveKeepsDecls(v, body, fe, envs);
      if id.Some? {
        AnnotatedGrows(id.value, envs, e1);
        ResolveKeepsDecls(v, id.value, fe, e1);
        SameDeclsTransitive(envs, e1, Resolve(v, id.value, fe, e1).1);
      }
    case Property(_, _, value) => ResolveKeepsDecls(v, value, env, envs);
    case MemberExpression(_, obj, property, computed) =>
      var (obj', e1) := Resolve(v, obj, env, envs);
      ResolveKeepsDecls(v, obj, env, envs);
      if computed {
        AnnotatedGrows(property, envs, e1);
        ResolveKeepsDecls(v, property, env, e1);
        SameDeclsTransitive(envs, e1, Resolve(v, property, env, e1).1);
      }
    case Program(_, _) => ResolveAllKeepsDecls(v, Children(n), n, env, envs);
    case VariableDeclarator(_, _, _) => ResolveAllKeepsDecls(v, Children(n), n, env, envs);
    case Literal(_) => ResolveAllKeepsDecls(v, Children(n), n, env, envs);
    case Other(_, _, _) => ResolveAllKeepsDecls(v, Children(n), n, env, envs);
  }

  lemma {:induction false} ResolveAllKeepsDecls(v: Variant, cs: seq<Node>, bound: Node, env: EnvId, envs: Envs)
    requires forall i :: 0 <= i < |cs| ==> cs[i] < bound
    requires Valid(envs) && env < |envs|
    requires forall i :: 0 <= i < |cs| ==> Annotated(cs[i], envs)
    ensures SameDecls(envs, ResolveAll(v, cs, bound, env, envs).1)
    decreases bound, 0, |cs|
  {
    if cs != [] {
      var (c, e1) := Resolve(v, cs[0], env, envs);
      ResolveKeepsDecls(v, cs[0], env, envs);
      AnnotatedSeqGrows(cs[1..], envs, e1);
      ResolveAllKeepsDecls(v, cs[1..], bound, env, e1);
      SameDeclsTransitive(envs, e1, ResolveAll(v, cs[1..], bound, env, e1).1);
    }
  }

  /** Scope `h` exists, has `name`, and records `u` among its references to it. */
  predicate Records(envs: Envs, h: EnvId, name: string, u: NodeId) {
    h < |envs| && name in envs[h].bindings && u in envs[h].bindings[name].boundInstances
  }

  /** Every parameter points at the function's scope, which declares it. */
  predicate ParamsBound(info: Info, params: seq<Node>, envs: Envs) {
    && info.bindings.Some? && info.bindings.value < |envs|
    && forall i :: 0 <= i < |params| ==>
         && params[i].info.boundIn == info.bindings
         && BindingName(params[i]) in envs[info.bindings.value].bindings
  }

  /**
   * No dangling references: every identifier pass 2 visits (and, in the
   * current variant, every `this`) points at a scope that records it under
   * its name, and every parameter points at its function's scope.
   */
  predicate Resolved(v: Variant, n: Node, envs: Envs)
    decreases n, 1
  {
    match n
    case Identifier(info, name) => info.boundIn.Some? && Records(envs, info.boundIn.value, name, n.Uid())
    case ThisExpression(info) => v == Current ==> info.boundIn.Some? && Records(envs, info.boundIn.value, "this", n.Uid())
    case FunctionDeclaration(info, id, params, body) =>
      ParamsBound(info, params, envs) && Resolved(v, id, envs) && Resolved(v, body, envs)
    case FunctionExpression(info, id, params, body) =>
      ParamsBound(info, params, envs) && (id.Some? ==> Resolved(v, id.value, envs)) && Resolved(v, body, envs)
    case Property(_, _, value) => Resolved(v, value, envs)
    case MemberExpression(_, obj, property, computed) =>
      Resolved(v, obj, envs) && (computed ==> Resolved(v, property, envs))
    case _ => forall i :: 0 <= i < |Children(n)| ==> Resolved(v, Children(n)[i], envs)
  }

  lemma {:induction false} ResolvedGrows(v: Variant, n: Node, a: Envs, b: Envs)
    requires Resolved(v, n, a) && Grows(a, b)
    ensures Resolved(v, n, b)
    decreases n, 1
  {
    match n
    case Identifier(info, name) => RecordedGrows(a, b, info.boundIn.value, name, n.Uid());
    case ThisExpression(info) =>
      if v == Current { RecordedGrows(a, b, info.boundIn.value, "this", n.Uid()); }
    case FunctionDeclaration(info, id, params, body) =>
      ResolvedGrows(v, id, a, b);
      ResolvedGrows(v, body, a, b);
    case FunctionExpression(info, id, params, body) =>
      if id.Some? { ResolvedGrows(v, id.value, a, b); }
      ResolvedGrows(v, body, a, b);
    case Property(_, _, value) => ResolvedGrows(v, value, a, b);
    case MemberExpression(_, obj, property, computed) =>
      ResolvedGrows(v, obj, a, b);
      if computed { ResolvedGrows(v, property, a, b); }
    case Literal(_) =>
    case Program(_, _) => ResolvedSeqGrows(v, Children(n), n, a, b);
    case VariableDeclarator(_, _, _) => ResolvedSeqGrows(v, Children(n), n, a, b);
    case Other(_, _, _) => ResolvedSeqGrows(v, Children(n), n, a, b);
  }

  lemma {:induction false} ResolvedSeqGrows(v: Variant, cs: seq<Node>, bound: Node, a: Envs, b: Envs)
    requires forall i :: 0 <= i < |cs| ==> cs[i] < bound
    requires forall i :: 0 <= i < |cs| ==> Resolved(v, cs[i], a)
    requires Grows(a, b)
    ensures forall i :: 0 <= i < |cs| ==> Resolved(v, cs[i], b)
    decreases bound, 0
  {
    forall i | 0 <= i < |cs| ensures Resolved(v, cs[i], b) {
      ResolvedGrows(v, cs[i], a, b);
    }
  }

  /** For kinds without a case of their own, resolved children make a resolved node. */
  lemma ChildrenResolved(v: Variant, n: Node, envs: Envs)
    requires !IsFunction(n) && !n.Identifier? && !n.ThisExpression?
    requires forall i :: 0 <= i < |Children(n)| ==> Resolved(v, Children(n)[i], envs)
    ensures Resolved(v, n, envs)
  {
    if n.Property? {
      assert n.value == Children(n)[1];
    } else if n.MemberExpression? {
      assert n.obj == Children(n)[0] && n.property == Children(n)[1];
    }
  }

  /** After pass 2 every reference it visits is resolved and recorded. */
  lemma {:induction false} ResolveResolves(v: Variant, n: Node, env: EnvId, envs: Envs)
    requires Valid(envs) && env < |envs| && Annotated(n, envs)
    ensures var r := Resolve(v, n, env, envs); Resolved(v, r.0, r.1)
    decreases n, 1
  {
    match n
    case Identifier(info, name) =>
    case ThisExpression(_) =>
    case FunctionDeclaration(_, _, _, _) => ResolveFunctionResolves(v, n, env, envs);
    case FunctionExpression(_, _, _, _) => ResolveFunctionResolves(v, n, env, envs);
    case Property(info, key, value) => ResolveResolves(v, value, env, envs);
    case MemberExpression(_, _, _, _) => ResolveMemberResolves(v, n, env, envs);
    case Program(_, _) => ResolveDefaultResolves(v, n, env, envs);
    case VariableDeclarator(_, _, _) => ResolveDefaultResolves(v, n, env, envs);
    case Literal(_) => ResolveDefaultResolves(v, n, env, envs);
    case Other(_, _, _) => ResolveDefaultResolves(v, n, env, envs);
  }

  lemma {:induction false} ResolveFunctionResolves(v: Variant, n: Node, env: EnvId, envs: Envs)
    requires Valid(envs) && env < |envs| && Annotated(n, envs) && IsFunction(n)
    ensures var r := Resolve(v, n, env, envs); Resolved(v, r.0, r.1)
    decreases n, 0
  {
    var fe := n.info.bindings.value;
    var (body', e1) := Resolve(v, n.fnBody, fe, envs);
    ResolveResolves(v, n.fnBody, fe, envs);
    var id := FunctionId(n);
    var r := Resolve(v, n, env, envs);
    if id.Some? {
      AnnotatedGrows(id.value, envs, e1);
      var (id', e2) := Resolve(v, id.value, fe, e1);
      ResolveResolves(v, id.value, fe, e1);
      ResolvedGrows(v, body', e1, e2);
      GrowsTransitive(envs, e1, e2);
      BindParamsBound(n.info, n.params, envs, e2);
      assert r.1 == e2;
      if n.FunctionDeclaration? {
        assert r.0 == FunctionDeclaration(n.info, id', BindParams(n.params, fe), body');
      } else {
        assert r.0 == FunctionExpression(n.info, Some(id'), BindParams(n.params, fe), body');
      }
    } else {
      BindParamsBound(n.info, n.params, envs, e1);
      assert r.0 == FunctionExpression(n.info, None, BindParams(n.params, fe), body');
    }
  }

  /** Pass 2 points each parameter at the scope pass 1 declared it in. */
  lemma BindParamsBound(info: Info, params: seq<Node>, a: Envs, b: Envs)
    requires OwnsScope(info, params, a) && Grows(a, b)
    ensures ParamsBound(info, BindParams(params, info.bindings.value), b)
  {
    var ps := BindParams(params, info.bindings.value);
    forall i | 0 <= i < |ps|
      ensures BindingName(ps[i]) in b[info.bindings.value].bindings
    {
      assert BindingName(ps[i]) == BindingName(params[i]);
    }
  }

  lemma {:induction false} ResolveMemberResolves(v: Variant, n: Node, env: EnvId, envs: Envs)
    requires Valid(envs) && env < |envs| && Annotated(n, envs) && n.MemberExpression?
    ensures var r := Resolve(v, n, env, envs); Resolved(v, r.0, r.1)
    decreases n, 0
  {
    var (obj', e1) := Resolve(v, n.obj, env, envs);
    ResolveResolves(v, n.obj, env, envs);
    if n.computed {
      AnnotatedGrows(n.property, envs, e1);
      var (property', e2) := Resolve(v, n.property, env, e1);
      ResolveResolves(v, n.property, env, e1);
      ResolvedGrows(v, obj', e1, e2);
    }
  }

  lemma {:induction false} ResolveDefaultResolves(v: Variant, n: Node, env: EnvId, envs: Envs)
    requires Valid(envs) && env < |envs| && Annotated(n, envs)
    requires n.Program? || n.VariableDeclarator? || n.Literal? || n.Other?
    ensures var r := Resolve(v, n, env, envs); Resolved(v, r.0, r.1)
    decreases n, 0
  {
    var (cs, e1) := ResolveAll(v, Children(n), n, env, envs);
    ResolveAllResolves(v, Children(n), n, env, envs);
    assert Children(WithChildren(n, cs)) == cs;
    ChildrenResolved(v, WithChildren(n, cs), e1);
  }

  lemma {:induction false} ResolveAllResolves(v: Variant, cs: seq<Node>, bound: Node, env: EnvId, envs: Envs)
    requires forall i :: 0 <= i < |cs| ==> cs[i] < bound
    requires Valid(envs) && env < |envs|
    requires forall i :: 0 <= i < |cs| ==> Annotated(cs[i], envs)
    ensures forall i :: 0 <= i < |cs| ==>
      Resolved(v, ResolveAll(v, cs, bound, env, envs).0[i], ResolveAll(v, cs, bound, env, envs).1)
    decreases bound, 0, |cs|
  {
    if cs != [] {
      var (c, e1) := Resolve(v, cs[0], env, envs);
      ResolveResolves(v, cs[0], env, envs);
      AnnotatedSeqGrows(cs[1..], envs, e1);
      var (rest, e2) := ResolveAll(v, cs[1..], bound, env, e1);
      ResolveAllResolves(v, cs[1..], bound, env, e1);
      ResolvedGrows(v, c, e1, e2);
      assert ResolveAll(v, cs, bound, env, envs) == ([c] + rest, e2);
      forall i | 0 <= i < |cs| ensures Resolved(v, ([c] + rest)[i], e2) {
        if i > 0 {
          assert ([c] + rest)[i] == rest[i - 1];
          assert Resolved(v, rest[i - 1], e2);
        }
      }
    }
  }

  /**
   * An identifier is bound in the nearest scope on its chain that has its
   * name, or at the root when none has it; its record gains it as the last
   * reference.
   */
  lemma ResolveIdentifier(v: Variant, n: Node, env: EnvId, envs: Envs)
    requires n.Identifier? && Valid(envs) && env < |envs|
    ensures var r := Resolve(v, n, env, envs);
      && r.0.info.boundIn.Some?
      && var h := r.0.info.boundIn.value;
      && (exists k :: NearestAt(envs, Chain(envs, env), k, h, n.name))
      && (n.name in envs[h].bindings || h == Root(envs, env))
      && r.1[h].bindings[n.name].boundInstances == Lookup(envs[h], n.name).boundInstances + [n.Uid()]
  {
    var (e1, h) := FindBindingEnv(envs, env, n.name);
    FindIsNearest(envs, env, n.name);
    var c := Chain(envs, env);
    if exists k :: 0 <= k < |c| && n.name in envs[c[k]].bindings {
      FindKeepsArena(envs, env, n.name);
    } else {
      FindCreatesAtRoot(envs, env, n.name);
    }
  }

  /**
   * The current variant records `this` in the scope it occurs in, without
   * a lookup; the older variant leaves `this` alone.
   */
  lemma ResolveThis(v: Variant, n: Node, env: EnvId, envs: Envs)
    requires n.ThisExpression? && Valid(envs) && env < |envs|
    ensures var r := Resolve(v, n, env, envs);
      && (v == Current ==>
            && r.0.info.boundIn == Some(env)
            && r.1[env].bindings["this"].boundInstances == Lookup(envs[env], "this").boundInstances + [n.Uid()]
            && forall i :: 0 <= i < |envs| && i != env ==> r.1[i] == envs[i])
      && (v == Legacy ==> r == (n, envs))
  {
  }

  /** Pass 1 does not change which references pass 2 will record. */
  lemma {:induction false} DeclareKeepsRefs(v: Variant, n: Node, env: EnvId, envs: Envs)
    requires Valid(envs) && env < |envs|
    ensures Refs(v, Declare(v, n, env, envs).0) == Refs(v, n)
    decreases n, 1
  {
    if IsFunction(n) {
      FunctionKeepsRefs(v, n, env, envs);
    } else if n.VariableDeclarator? {
      DeclaratorKeepsRefs(v, n, env, envs);
    } else {
      DefaultKeepsRefs(v, n, env, envs);
    }
  }

  lemma {:induction false} FunctionKeepsRefs(v: Variant, n: Node, env: EnvId, envs: Envs)
    requires Valid(envs) && env < |envs| && IsFunction(n)
    ensures Refs(v, Declare(v, n, env, envs).0) == Refs(v, n)
    decreases n, 0
  {
    var e4 := EnterFunction(v, n, env, envs);
    var body := Declare(v, n.fnBody, |envs|, e4).0;
    DeclareKeepsRefs(v, n.fnBody, |envs|, e4);
    assert Declare(v, n, env, envs).0 == n.(info := n.info.(bindings := Some(|envs|)), fnBody := body);
    BodyKeepsRefs(v, n, n.info.(bindings := Some(|envs|)), body);
  }

  /** Annotating a function and replacing its body by one with the same references keeps its references. */
  lemma BodyKeepsRefs(v: Variant, n: Node, info: Info, body: Node)
    requires IsFunction(n) && Refs(v, body) == Refs(v, n.fnBody)
    ensures Refs(v, n.(info := info, fnBody := body)) == Refs(v, n)
  {
  }

  lemma {:induction false} DeclaratorKeepsRefs(v: Variant, n: Node, env: EnvId, envs: Envs)
    requires Valid(envs) && env < |envs| && n.VariableDeclarator?
    ensures Refs(v, Declare(v, n, env, envs).0) == Refs(v, n)
    decreases n, 0
  {
    var e1 := AddBindingInstance(envs, env, BindingName(n.id), n.Uid());
    if n.init.Some? {
      var (init, e2) := Declare(v, n.init.value, env, e1);
      DeclareKeepsRefs(v, n.init.value, env, e1);
      assert Declare(v, n, env, envs).0 == n.(init := Some(init));
      InitKeepsRefs(v, n, init);
    }
  }

  /** Replacing a declarator's initialiser by one with the same references keeps its references. */
  lemma InitKeepsRefs(v: Variant, n: Node, init: Node)
    requires n.VariableDeclarator? && n.init.Some? && Refs(v, init) == Refs(v, n.init.value)
    ensures Refs(v, n.(init := Some(init))) == Refs(v, n)
  {
    assert n.(init := Some(init)) == WithChildren(n, [n.id, init]);
    ChildrenKeepRefs(v, n, [n.id, init]);
  }

  lemma {:induction false} DefaultKeepsRefs(v: Variant, n: Node, env: EnvId, envs: Envs)
    requires Valid(envs) && env < |envs| && !IsFunction(n) && !n.VariableDeclarator?
    ensures Refs(v, Declare(v, n, env, envs).0) == Refs(v, n)
    decreases n, 0
  {
    DeclareAllKeepsRefs(v, Children(n), n, env, envs);
    var cs := DeclareAll(v, Children(n), n, env, envs).0;
    assert Declare(v, n, env, envs).0 == WithChildren(n, cs);
    ChildrenKeepRefs(v, n, cs);
  }

  /** Children with the same references make a node with the same references. */
  lemma ChildrenKeepRefs(v: Variant, n: Node, cs: seq<Node>)
    requires !IsFunction(n) && |cs| == |Children(n)|
    requires forall i :: 0 <= i < |cs| ==> Refs(v, cs[i]) == Refs(v, Children(n)[i])
    ensures Refs(v, WithChildren(n, cs)) == Refs(v, n)
  {
    match n
    case Property(info, key, value) =>
      assert WithChildren(n, cs) == Property(info, cs[0], cs[1]);
      assert Children(n)[1] == value;
    case MemberExpression(info, obj, property, computed) =>
      assert WithChildren(n, cs) == MemberExpression(info, cs[0], cs[1], computed);
      assert Children(n)[0] == obj && Children(n)[1] == property;
    case Identifier(_, _) =>
    case ThisExpression(_) =>
    case Program(_, _) => RefsAllBound(v, cs, WithChildren(n, cs), n);
    case VariableDeclarator(_, _, _) => RefsAllBound(v, cs, WithChildren(n, cs), n);
    case Literal(_) =>
    case Other(_, _, _) => RefsAllBound(v, cs, WithChildren(n, cs), n);
  }

  lemma {:induction false} DeclareAllKeepsRefs(v: Variant, cs: seq<Node>, bound: Node, env: EnvId, envs: Envs)
    requires forall i :: 0 <= i < |cs| ==> cs[i] < bound
    requires Valid(envs) && env < |envs|
    ensures var r := DeclareAll(v, cs, bound, env, envs).0;
      (forall i :: 0 <= i < |r| ==> Refs(v, r[i]) == Refs(v, cs[i]))
    decreases bound, 0, |cs|
  {
    if cs != [] {
      var first := Declare(v, cs[0], env, envs);
      DeclareKeepsRefs(v, cs[0], env, envs);
      DeclareAllKeepsRefs(v, cs[1..], bound, env, first.1);
      DeclareAllCons(v, cs, bound, env, envs);
      SameRefsCons(v, first.0, DeclareAll(v, cs[1..], bound, env, first.1).0, cs);
    }
  }

  /** Pass 1 over siblings handles the first, then the rest in the arena it leaves. */
  lemma DeclareAllCons(v: Variant, cs: seq<Node>, bound: Node, env: EnvId, envs: Envs)
    requires cs != [] && forall i :: 0 <= i < |cs| ==> cs[i] < bound
    requires Valid(envs) && env < |envs|
    ensures var first := Declare(v, cs[0], env, envs);
      DeclareAll(v, cs, bound, env, envs).0 == [first.0] + DeclareAll(v, cs[1..], bound, env, first.1).0
  {
  }

  lemma SameRefsCons(v: Variant, c: Node, rest: seq<Node>, cs: seq<Node>)
    requires cs != [] && |rest| == |cs| - 1 && Refs(v, c) == Refs(v, cs[0])
    requires forall i :: 0 <= i < |rest| ==> Refs(v, rest[i]) == Refs(v, cs[1..][i])
    ensures forall i :: 0 <= i < |cs| ==> Refs(v, ([c] + rest)[i]) == Refs(v, cs[i])
  {
    forall i | 0 <= i < |cs| ensures Refs(v, ([c] + rest)[i]) == Refs(v, cs[i]) {
      if i > 0 { assert ([c] + rest)[i] == rest[i - 1] && cs[1..][i - 1] == cs[i]; }
    }
  }

  /** `RefsAll` depends only on the elements, not on the bound used for termination. */
  lemma {:induction false} RefsAllBound(v: Variant, cs: seq<Node>, b1: Node, b2: Node)
    requires forall i :: 0 <= i < |cs| ==> cs[i] < b1
    requires |cs| == |Children(b2)|
    requires forall i :: 0 <= i < |cs| ==> Refs(v, cs[i]) == Refs(v, Children(b2)[i])
    ensures RefsAll(v, cs, b1) == RefsAll(v, Children(b2), b2)
  {
    RefsAllPointwise(v, cs, b1, Children(b2), b2);
  }

  lemma {:induction false} RefsAllPointwise(v: Variant, xs: seq<Node>, b1: Node, ys: seq<Node>, b2: Node)
    requires forall i :: 0 <= i < |xs| ==> xs[i] < b1
    requires forall i :: 0 <= i < |ys| ==> ys[i] < b2
    requires |xs| == |ys| && forall i :: 0 <= i < |xs| ==> Refs(v, xs[i]) == Refs(v, ys[i])
    ensures RefsAll(v, xs, b1) == RefsAll(v, ys, b2)
    decreases |xs|
  {
    if xs != [] {
      RefsAllPointwise(v, xs[1..], b1, ys[1..], b2);
    }
  }

  lemma RefsAllPair(v: Variant, cs: seq<Node>, bound: Node)
    requires forall i :: 0 <= i < |cs| ==> cs[i] < bound
    requires |cs| == 2
    ensures RefsAll(v, cs, bound) == Refs(v, cs[0]) + Refs(v, cs[1])
  {
    assert cs[1..][0] == cs[1];
    assert cs[1..][1..] == [];
    assert RefsAll(v, cs[1..], bound) == Refs(v, cs[1]) + RefsAll(v, cs[1..][1..], bound);
  }

  /*
   * Both passes change annotations only.
   */

  /** Pass 1 changes nothing in the tree but scope annotations (`bindings` of functions). */
  lemma {:induction false} DeclareKeepsTree(v: Variant, n: Node, env: EnvId, envs: Envs)
    requires Valid(envs) && env < |envs|
    ensures SameTree(n, Declare(v, n, env, envs).0)
    decreases n, 1
  {
    if IsFunction(n) {
      FunctionKeepsTree(v, n, env, envs);
    } else if n.VariableDeclarator? {
      DeclaratorKeepsTree(v, n, env, envs);
    } else {
      DefaultKeepsTree(v, n, env, envs);
    }
  }

  lemma {:induction false} FunctionKeepsTree(v: Variant, n: Node, env: EnvId, envs: Envs)
    requires Valid(envs) && env < |envs| && IsFunction(n)
    ensures SameTree(n, Declare(v, n, env, envs).0)
    decreases n, 0
  {
    var fe := |envs|;
    var e4 := EnterFunction(v, n, env, envs);
    var body := Declare(v, n.fnBody, fe, e4).0;
    DeclareKeepsTree(v, n.fnBody, fe, e4);
    assert Declare(v, n, env, envs) == DeclareFunction(v, n, env, envs);
    var m := Declare(v, n, env, envs).0;
    assert m == n.(info := n.info.(bindings := Some(fe)), fnBody := body);
    SameTreesRefl(n.params);
    if FunctionId(n).Some? { SameTreeRefl(FunctionId(n).value); }
    SameTreeFunction(n, m);
  }

  lemma {:induction false} DeclaratorKeepsTree(v: Variant, n: Node, env: EnvId, envs: Envs)
    requires Valid(envs) && env < |envs| && n.VariableDeclarator?
    ensures SameTree(n, Declare(v, n, env, envs).0)
    decreases n, 0
  {
    assert Declare(v, n, env, envs) == DeclareDeclarator(v, n, env, envs);
    if n.init.Some? {
      var e1 := AddBindingInstance(envs, env, BindingName(n.id), n.Uid());
      var init := Declare(v, n.init.value, env, e1).0;
      DeclareKeepsTree(v, n.init.value, env, e1);
      assert Declare(v, n, env, envs).0 == n.(init := Some(init));
      DeclaratorWithInit(n, init);
    } else {
      SameTreeRefl(n);
    }
  }

  /** A declarator with a same-shaped initialiser put in is the same tree. */
  lemma DeclaratorWithInit(n: Node, init: Node)
    requires n.VariableDeclarator? && n.init.Some? && SameTree(n.init.value, init)
    ensures SameTree(n, n.(init := Some(init)))
  {
    var cs := [n.id, init];
    SameTreeRefl(n.id);
    assert Children(n) == [n.id, n.init.value];
    assert forall i :: 0 <= i < 2 ==> SameTree(Children(n)[i], cs[i]);
    assert WithInfo(n, n.info) == n;
    assert WithChildren(n, cs) == n.(init := Some(init));
    SameTreeStep(n, n.info, cs);
  }

  lemma {:induction false} DefaultKeepsTree(v: Variant, n: Node, env: EnvId, envs: Envs)
    requires Valid(envs) && env < |envs| && !IsFunction(n) && !n.VariableDeclarator?
    ensures SameTree(n, Declare(v, n, env, envs).0)
    decreases n, 0
  {
    var cs := DeclareAll(v, Children(n), n, env, envs).0;
    DeclareAllKeepsTree(v, Children(n), n, env, envs);
    assert Declare(v, n, env, envs).0 == WithChildren(n, cs);
    assert WithInfo(n, n.info) == n;
    SameTreeStep(n, n.info, cs);
  }

  lemma {:induction false} DeclareAllKeepsTree(v: Variant, cs: seq<Node>, bound: Node, env: EnvId, envs: Envs)
    requires forall i :: 0 <= i < |cs| ==> cs[i] < bound
    requires Valid(envs) && env < |envs|
    ensures SameTrees(cs, DeclareAll(v, cs, bound, env, envs).0)
    decreases bound, 0, |cs|
  {
    if cs != [] {
      var first := Declare(v, cs[0], env, envs);
      DeclareKeepsTree(v, cs[0], env, envs);
      DeclareAllKeepsTree(v, cs[1..], bound, env, first.1);
      DeclareAllCons(v, cs, bound, env, envs);
      SameTreesCons(cs, first.0, DeclareAll(v, cs[1..], bound, env, first.1).0);
    }
  }

  /** Pass 2 changes nothing in the tree but scope annotations (`boundIn` of references and parameters). */
  lemma {:induction false} ResolveKeepsTree(v: Variant, n: Node, env: EnvId, envs: Envs)
    requires Valid(envs) && env < |envs| && Annotated(n, envs)
    ensures SameTree(n, Resolve(v, n, env, envs).0)
    decreases n, 1
  {
    var m := Resolve(v, n, env, envs).0;
    match n
    case Identifier(info, name) =>
      assert m == WithInfo(n, m.info);
      SameTreeWithInfo(n, m.info);
    case ThisExpression(info) =>
      assert m == WithInfo(n, m.info);
      SameTreeWithInfo(n, m.info);
    case FunctionDeclaration(_, _, _, _) => ResolveFunctionKeepsTree(v, n, env, envs);
    case FunctionExpression(_, _, _, _) => ResolveFunctionKeepsTree(v, n, env, envs);
    case Property(info, key, value) =>
      var value' := Resolve(v, value, env, envs).0;
      ResolveKeepsTree(v, value, env, envs);
      SameTreeRefl(key);
      assert m == WithChildren(WithInfo(n, info), [key, value']);
      SameTreeStep(n, info, [key, value']);
    case MemberExpression(_, _, _, _) => ResolveMemberKeepsTree(v, n, env, envs);
    case Program(_, _) => ResolveDefaultKeepsTree(v, n, env, envs);
    case VariableDeclarator(_, _, _) => ResolveDefaultKeepsTree(v, n, env, envs);
    case Literal(_) => ResolveDefaultKeepsTree(v, n, env, envs);
    case Other(_, _, _) => ResolveDefaultKeepsTree(v, n, env, envs);
  }

  lemma {:induction false} ResolveFunctionKeepsTree(v: Variant, n: Node, env: EnvId, envs: Envs)
    requires Valid(envs) && env < |envs| && Annotated(n, envs) && IsFunction(n)
    ensures SameTree(n, Resolve(v, n, env, envs).0)
    decreases n, 0
  {
    var fe := n.info.bindings.value;
    var (body', e1) := Resolve(v, n.fnBody, fe, envs);
    ResolveKeepsTree(v, n.fnBody, fe, envs);
    BindParamsKeepTree(n.params, fe);
    var id := FunctionId(n);
    if id.Some? {
      AnnotatedGrows(id.value, envs, e1);
      ResolveKeepsTree(v, id.value, fe, e1);
    }
    SameTreeFunction(n, Resolve(v, n, env, envs).0);
  }

  lemma BindParamsKeepTree(ps: seq<Node>, fe: EnvId)
    ensures SameTrees(ps, BindParams(ps, fe))
  {
    var qs := BindParams(ps, fe);
    forall i | 0 <= i < |ps| ensures SameTree(ps[i], qs[i]) {
      assert qs[i] == WithInfo(ps[i], qs[i].info);
      SameTreeWithInfo(ps[i], qs[i].info);
    }
  }

  lemma {:induction false} ResolveMemberKeepsTree(v: Variant, n: Node, env: EnvId, envs: Envs)
    requires Valid(envs) && env < |envs| && Annotated(n, envs) && n.MemberExpression?
    ensures SameTree(n, Resolve(v, n, env, envs).0)
    decreases n, 0
  {
    var (obj', e1) := Resolve(v, n.obj, env, envs);
    ResolveKeepsTree(v, n.obj, env, envs);
    var property' := n.property;
    if n.computed {
      AnnotatedGrows(n.property, envs, e1);
      property' := Resolve(v, n.property, env, e1).0;
      ResolveKeepsTree(v, n.property, env, e1);
    } else {
      SameTreeRefl(n.property);
    }
    assert Resolve(v, n, env, envs).0 == WithChildren(WithInfo(n, n.info), [obj', property']);
    SameTreeStep(n, n.info, [obj', property']);
  }

  lemma {:induction false} ResolveDefaultKeepsTree(v: Variant, n: Node, env: EnvId, envs: Envs)
    requires Valid(envs) && env < |envs| && Annotated(n, envs)
    requires n.Program? || n.VariableDeclarator? || n.Literal? || n.Other?
    ensures SameTree(n, Resolve(v, n, env, envs).0)
    decreases n, 0
  {
    var cs := ResolveAll(v, Children(n), n, env, envs).0;
    ResolveAllKeepsTree(v, Children(n), n, env, envs);
    assert WithInfo(n, n.info) == n;
    SameTreeStep(n, n.info, cs);
  }

  lemma {:induction false} ResolveAllKeepsTree(v: Variant, cs: seq<Node>, bound: Node, env: EnvId, envs: Envs)
    requires forall i :: 0 <= i < |cs| ==> cs[i] < bound
    requires Valid(envs) && env < |envs|
    requires forall i :: 0 <= i < |cs| ==> Annotated(cs[i], envs)
    ensures SameTrees(cs, ResolveAll(v, cs, bound, env, envs).0)
    decreases bound, 0, |cs|
  {
    if cs != [] {
      var (c, e1) := Resolve(v, cs[0], env, envs);
      ResolveKeepsTree(v, cs[0], env, envs);
      AnnotatedSeqGrows(cs[1..], envs, e1);
      var rest := ResolveAll(v, cs[1..], bound, env, e1).0;
      ResolveAllKeepsTree(v, cs[1..], bound, env, e1);
      SameTreesCons(cs, c, rest);
    }
  }

  /*
   * Which scope each reference is bound to.
   */

  /** Pass 2 gives new names to roots only, and `this` to the scopes it occurs in. */
  lemma {:induction false} ResolveFixesNames(v: Variant, n: Node, env: EnvId, envs: Envs)
    requires Valid(envs) && env < |envs| && Annotated(n, envs)
    ensures NamesFixedBelowRoot(envs, Resolve(v, n, env, envs).1)
    decreases n, 1
  {
    match n
    case Identifier(info, name) => FindThenAddFixesNames(envs, env, name, n.Uid());
    case ThisExpression(_) =>
      if v == Current { AddThisFixesNames(envs, env, n.Uid()); }
    case FunctionDeclaration(info, id, params, body) =>
      var fe := info.bindings.value;
      var (body', e1) := Resolve(v, body, fe, envs);
      ResolveFixesNames(v, body, fe, envs);
      AnnotatedGrows(id, envs, e1);
      ResolveFixesNames(v, id, fe, e1);
      NamesFixedTransitive(envs, e1, Resolve(v, id, fe, e1).1);
    case FunctionExpression(info, id, params, body) =>
      var fe := info.bindings.value;
      var (body', e1) := Resolve(v, body, fe, envs);
      ResolveFixesNames(v, body, fe, envs);
      if id.Some? {
        AnnotatedGrows(id.value, envs, e1);
        ResolveFixesNames(v, id.value, fe, e1);
        NamesFixedTransitive(envs, e1, Resolve(v, id.value, fe, e1).1);
      }
    case Property(_, _, value) => ResolveFixesNames(v, value, env, envs);
    case MemberExpression(_, obj, property, computed) =>
      var (obj', e1) := Resolve(v, obj, env, envs);
      ResolveFixesNames(v, obj, env, envs);
      if computed {
        AnnotatedGrows(property, envs, e1);
        ResolveFixesNames(v, property, env, e1);
        NamesFixedTransitive(envs, e1, Resolve(v, property, env, e1).1);
      }
    case Program(_, _) => ResolveAllFixesNames(v, Children(n), n, env, envs);
    case VariableDeclarator(_, _, _) => ResolveAllFixesNames(v, Children(n), n, env, envs);
    case Literal(_) => ResolveAllFixesNames(v, Children(n), n, env, envs);
    case Other(_, _, _) => ResolveAllFixesNames(v, Children(n), n, env, envs);
  }

  lemma {:induction false} ResolveAllFixesNames(v: Variant, cs: seq<Node>, bound: Node, env: EnvId, envs: Envs)
    requires forall i :: 0 <= i < |cs| ==> cs[i] < bound
    requires Valid(envs) && env < |envs|
    requires forall i :: 0 <= i < |cs| ==> Annotated(cs[i], envs)
    ensures NamesFixedBelowRoot(envs, ResolveAll(v, cs, bound, env, envs).1)
    decreases bound, 0, |cs|
  {
    if cs != [] {
      var (c, e1) := Resolve(v, cs[0], env, envs);
      ResolveFixesNames(v, cs[0], env, envs);
      AnnotatedSeqGrows(cs[1..], envs, e1);
      ResolveAllFixesNames(v, cs[1..], bound, env, e1);
      NamesFixedTransitive(envs, e1, ResolveAll(v, cs[1..], bound, env, e1).1);
    }
  }

  /**
   * Where every reference in `n`, looked up from scope `env`, is bound,
   * with `d` the scopes as pass 1 left them: an identifier to the nearest
   * scope on its chain that has its name, or to the root of the chain when
   * none has it (`this` is a keyword, so no identifier is spelt `this`); in
   * the current variant, `this` to the scope it occurs in. A function owns
   * a scope of `d`, binds its parameters to it and has its name and body
   * looked up from it.
   */
  predicate BoundNearest(v: Variant, n: Node, env: EnvId, d: Envs)
    requires Valid(d) && env < |d|
    decreases n, 1
  {
    match n
    case Identifier(info, name) =>
      info.boundIn.Some? && (name != "this" ==> NearestScope(d, env, name, info.boundIn.value))
    case ThisExpression(info) => v == Current ==> info.boundIn == Some(env)
    case FunctionDeclaration(info, id, params, body) =>
      && ParamsPointAt(info, params, d)
      && BoundNearest(v, id, info.bindings.value, d)
      && BoundNearest(v, body, info.bindings.value, d)
    case FunctionExpression(info, id, params, body) =>
      && ParamsPointAt(info, params, d)
      && (id.Some? ==> BoundNearest(v, id.value, info.bindings.value, d))
      && BoundNearest(v, body, info.bindings.value, d)
    case Property(_, _, value) => BoundNearest(v, value, env, d)
    case MemberExpression(_, obj, property, computed) =>
      BoundNearest(v, obj, env, d) && (computed ==> BoundNearest(v, property, env, d))
    case _ => forall i :: 0 <= i < |Children(n)| ==> BoundNearest(v, Children(n)[i], env, d)
  }

  /** The function owns a scope of `d` and every parameter is bound to it. */
  predicate ParamsPointAt(info: Info, params: seq<Node>, d: Envs) {
    info.bindings.Some? && info.bindings.value < |d| && ParamsBoundTo(params, info.bindings)
  }

  /** Every parameter is bound to `b`. */
  predicate ParamsBoundTo(params: seq<Node>, b: Option<EnvId>) {
    forall i :: 0 <= i < |params| ==> params[i].info.boundIn == b
  }

  lemma BindParamsBoundTo(ps: seq<Node>, fe: EnvId)
    ensures ParamsBoundTo(BindParams(ps, fe), Some(fe))
  {
  }

  /**
   * Pass 2 binds every reference to its nearest scope, as the scopes stood
   * before pass 2 began (`d`): the lookups it makes on the way only add
   * names at the root and `this`, which changes no later lookup.
   */
  lemma {:induction false} ResolveBindsNearest(v: Variant, n: Node, env: EnvId, envs: Envs, d: Envs)
    requires Valid(envs) && env < |envs| && Annotated(n, envs)
    requires Valid(d) && Grows(d, envs) && NamesFixedBelowRoot(d, envs)
    ensures BoundNearest(v, Resolve(v, n, env, envs).0, env, d)
    decreases n, 2
  {
    match n
    case Identifier(info, name) =>
      if name != "this" {
        FindSameScope(d, envs, env, name);
        FindIsNearestScope(d, env, name);
      }
    case ThisExpression(_) =>
    case FunctionDeclaration(_, _, _, _) => ResolveFunctionBindsNearest(v, n, env, envs, d);
    case FunctionExpression(_, _, _, _) => ResolveFunctionBindsNearest(v, n, env, envs, d);
    case Property(_, _, value) => ResolveBindsNearest(v, value, env, envs, d);
    case MemberExpression(_, _, _, _) => ResolveMemberBindsNearest(v, n, env, envs, d);
    case Program(_, _) => ResolveDefaultBindsNearest(v, n, env, envs, d);
    case VariableDeclarator(_, _, _) => ResolveDefaultBindsNearest(v, n, env, envs, d);
    case Literal(_) => ResolveDefaultBindsNearest(v, n, env, envs, d);
    case Other(_, _, _) => ResolveDefaultBindsNearest(v, n, env, envs, d);
  }

  /** After one step of pass 2, `d` still describes the scopes for the lookups that follow. */
  lemma StillNearest(v: Variant, n: Node, env: EnvId, envs: Envs, d: Envs)
    requires Valid(envs) && env < |envs| && Annotated(n, envs)
    requires Valid(d) && Grows(d, envs) && NamesFixedBelowRoot(d, envs)
    ensures var e1 := Resolve(v, n, env, envs).1;
      Grows(d, e1) && NamesFixedBelowRoot(d, e1)
  {
    var e1 := Resolve(v, n, env, envs).1;
    ResolveFixesNames(v, n, env, envs);
    GrowsTransitive(d, envs, e1);
    NamesFixedTransitive(d, envs, e1);
  }

  lemma {:induction false} ResolveFunctionBindsNearest(v: Variant, n: Node, env: EnvId, envs: Envs, d: Envs)
    requires Valid(envs) && env < |envs| && Annotated(n, envs) && IsFunction(n)
    requires Valid(d) && Grows(d, envs) && NamesFixedBelowRoot(d, envs)
    ensures BoundNearest(v, Resolve(v, n, env, envs).0, env, d)
    decreases n, 1
  {
    AnnotatedFunctionParts(n, envs);
    ResolveBindsNearest(v, n.fnBody, n.info.bindings.value, envs, d);
    if FunctionId(n).Some? {
      ResolveNamedBindsNearest(v, n, env, envs, d);
    } else {
      AnonymousFunctionResolved(v, n, env, envs);
      BindParamsBoundTo(n.params, n.info.bindings.value);
      FunctionBoundNearest(v, Resolve(v, n, env, envs).0, env, d);
    }
  }

  lemma {:induction false} ResolveNamedBindsNearest(v: Variant, n: Node, env: EnvId, envs: Envs, d: Envs)
    requires Valid(envs) && env < |envs| && Annotated(n, envs) && IsFunction(n) && FunctionId(n).Some?
    requires Valid(d) && Grows(d, envs) && NamesFixedBelowRoot(d, envs)
    requires n.info.bindings.Some? && n.info.bindings.value < |envs| && Annotated(n.fnBody, envs)
    requires Annotated(FunctionId(n).value, envs)
    requires BoundNearest(v, Resolve(v, n.fnBody, n.info.bindings.value, envs).0, n.info.bindings.value, d)
    ensures BoundNearest(v, Resolve(v, n, env, envs).0, env, d)
    decreases n, 0
  {
    var fe := n.info.bindings.value;
    var e1 := Resolve(v, n.fnBody, fe, envs).1;
    AnnotatedGrows(FunctionId(n).value, envs, e1);
    StillNearest(v, n.fnBody, fe, envs, d);
    ResolveBindsNearest(v, FunctionId(n).value, fe, e1, d);
    NamedFunctionResolved(v, n, env, envs);
    BindParamsBoundTo(n.params, fe);
    FunctionBoundNearest(v, Resolve(v, n, env, envs).0, env, d);
  }

  lemma AnnotatedFunctionParts(n: Node, envs: Envs)
    requires Annotated(n, envs) && IsFunction(n)
    ensures n.info.bindings.Some? && n.info.bindings.value < |envs| && Annotated(n.fnBody, envs)
    ensures FunctionId(n).Some? ==> Annotated(FunctionId(n).value, envs)
  {
  }

  /** What pass 2 makes of a named function: its body, then its name, resolved in its own scope. */
  lemma NamedFunctionResolved(v: Variant, n: Node, env: EnvId, envs: Envs)
    requires Valid(envs) && env < |envs| && Annotated(n, envs) && IsFunction(n) && FunctionId(n).Some?
    requires Annotated(FunctionId(n).value, Resolve(v, n.fnBody, n.info.bindings.value, envs).1)
    ensures var fe := n.info.bindings.value;
            var (body', e1) := Resolve(v, n.fnBody, fe, envs);
            var r := Resolve(v, n, env, envs).0;
            && IsFunction(r) && r.info == n.info && r.params == BindParams(n.params, fe) && r.fnBody == body'
            && FunctionId(r) == Some(Resolve(v, FunctionId(n).value, fe, e1).0)
  {
  }

  lemma AnonymousFunctionResolved(v: Variant, n: Node, env: EnvId, envs: Envs)
    requires Valid(envs) && env < |envs| && Annotated(n, envs) && IsFunction(n) && FunctionId(n).None?
    ensures var fe := n.info.bindings.value;
            var r := Resolve(v, n, env, envs).0;
            && IsFunction(r) && r.info == n.info && r.params == BindParams(n.params, fe)
            && r.fnBody == Resolve(v, n.fnBody, fe, envs).0 && FunctionId(r).None?
  {
  }

  /** A function whose parameters, name and body are bound to their nearest scopes is itself. */
  lemma FunctionBoundNearest(v: Variant, m: Node, env: EnvId, d: Envs)
    requires Valid(d) && env < |d| && IsFunction(m)
    requires m.info.bindings.Some? && m.info.bindings.value < |d|
    requires ParamsBoundTo(m.params, m.info.bindings)
    requires FunctionId(m).Some? ==> BoundNearest(v, FunctionId(m).value, m.info.bindings.value, d)
    requires BoundNearest(v, m.fnBody, m.info.bindings.value, d)
    ensures BoundNearest(v, m, env, d)
  {
  }

  lemma {:induction false} ResolveMemberBindsNearest(v: Variant, n: Node, env: EnvId, envs: Envs, d: Envs)
    requires Valid(envs) && env < |envs| && Annotated(n, envs) && n.MemberExpression?
    requires Valid(d) && Grows(d, envs) && NamesFixedBelowRoot(d, envs)
    ensures BoundNearest(v, Resolve(v, n, env, envs).0, env, d)
    decreases n, 0
  {
    var (obj', e1) := Resolve(v, n.obj, env, envs);
    ResolveBindsNearest(v, n.obj, env, envs, d);
    if n.computed {
      AnnotatedGrows(n.property, envs, e1);
      StillNearest(v, n.obj, env, envs, d);
      ResolveBindsNearest(v, n.property, env, e1, d);
    }
  }

  lemma {:induction false} ResolveDefaultBindsNearest(v: Variant, n: Node, env: EnvId, envs: Envs, d: Envs)
    requires Valid(envs) && env < |envs| && Annotated(n, envs)
    requires n.Program? || n.VariableDeclarator? || n.Literal? || n.Other?
    requires Valid(d) && Grows(d, envs) && NamesFixedBelowRoot(d, envs)
    ensures BoundNearest(v, Resolve(v, n, env, envs).0, env, d)
    decreases n, 0
  {
    var cs := ResolveAll(v, Children(n), n, env, envs).0;
    ResolveAllBindsNearest(v, Children(n), n, env, envs, d);
    assert Children(WithChildren(n, cs)) == cs;
    ChildrenBoundNearest(v, WithChildren(n, cs), env, d);
  }

  /** For kinds without a case of their own, children bound to their nearest scopes make such a node. */
  lemma ChildrenBoundNearest(v: Variant, n: Node, env: EnvId, d: Envs)
    requires Valid(d) && env < |d|
    requires n.Program? || n.VariableDeclarator? || n.Literal? || n.Other?
    requires forall i :: 0 <= i < |Children(n)| ==> BoundNearest(v, Children(n)[i], env, d)
    ensures BoundNearest(v, n, env, d)
  {
  }

  lemma {:induction false} ResolveAllBindsNearest(v: Variant, cs: seq<Node>, bound: Node, env: EnvId, envs: Envs, d: Envs)
    requires forall i :: 0 <= i < |cs| ==> cs[i] < bound
    requires Valid(envs) && env < |envs|
    requires forall i :: 0 <= i < |cs| ==> Annotated(cs[i], envs)
    requires Valid(d) && Grows(d, envs) && NamesFixedBelowRoot(d, envs)
    ensures forall i :: 0 <= i < |cs| ==> BoundNearest(v, ResolveAll(v, cs, bound, env, envs).0[i], env, d)
    decreases bound, 0, |cs|
  {
    if cs != [] {
      var (c, e1) := Resolve(v, cs[0], env, envs);
      ResolveBindsNearest(v, cs[0], env, envs, d);
      AnnotatedSeqGrows(cs[1..], envs, e1);
      StillNearest(v, cs[0], env, envs, d);
      var rest := ResolveAll(v, cs[1..], bound, env, e1).0;
      ResolveAllBindsNearest(v, cs[1..], bound, env, e1, d);
      assert ResolveAll(v, cs, bound, env, envs).0 == [c] + rest;
      forall i | 0 <= i < |cs| ensures BoundNearest(v, ([c] + rest)[i], env, d) {
        if i > 0 { assert ([c] + rest)[i] == rest[i - 1]; }
      }
    }
  }

  /*
   * The whole analysis.
   */

  /** The tree and arena pass 2 starts from: pass 1 in a fresh global scope, recorded in the root. */
  function Prepare(v: Variant, ast: Node): (r: (Node, Envs))
    requires NamesAreIdentifiers(ast)
    ensures Valid(r.1) && 0 < |r.1| && Annotated(r.0, r.1)
    ensures r.1[0].scope == ast.Uid() && r.1[0].parent.None?
    ensures forall i :: 0 < i < |r.1| ==> r.1[i].parent.Some?
    ensures !IsFunction(ast) ==> r.0.info.bindings == Some(0)
  {
    var global := [Env(ast.Uid(), None, map[])];
    var (t1, e1) := Declare(v, ast, 0, global);
    DeclareAnnotates(v, ast, 0, global);
    var root := if IsFunction(ast) then t1 else WithInfo(t1, t1.info.(bindings := Some(0)));
    AnnotatedWithInfo(t1, root, e1);
    (root, e1)
  }

  /**
   * `performBindingAnalysis(ast)`: a global scope for the tree (index 0,
   * no parent) recorded in the root, pass 1 over the tree in it, then
   * pass 2. When the root is a function, pass 1 gives it its own scope
   * instead, as the source overwrites `ast.bindings` there.
   */
  function PerformBindingAnalysis(v: Variant, ast: Node): (r: (Node, Envs))
    requires NamesAreIdentifiers(ast)
    ensures Valid(r.1) && 0 < |r.1|
    ensures r.1[0].scope == ast.Uid() && r.1[0].parent.None?
    ensures forall i :: 0 < i < |r.1| ==> r.1[i].parent.Some?
    ensures forall i :: 0 <= i < |r.1| ==> Root(r.1, i) == 0
    ensures !IsFunction(ast) ==> r.0.info.bindings == Some(0)
    ensures Resolved(v, r.0, r.1)
    ensures BoundNearest(v, r.0, 0, Prepare(v, ast).1)
  {
    var (root, e1) := Prepare(v, ast);
    var (t2, e2) := Resolve(v, root, 0, e1);
    ResolveResolves(v, root, 0, e1);
    ResolveBindsNearest(v, root, 0, e1, e1);
    RootIsGlobal(e2);
    (t2, e2)
  }

  /** The analysis returns the tree it was given, with only its scope annotations changed. */
  lemma AnalysisKeepsTree(v: Variant, ast: Node)
    requires NamesAreIdentifiers(ast)
    ensures SameTree(ast, PerformBindingAnalysis(v, ast).0)
    ensures Uids(PerformBindingAnalysis(v, ast).0) == Uids(ast)
  {
    var global := [Env(ast.Uid(), None, map[])];
    var t1 := Declare(v, ast, 0, global).0;
    DeclareKeepsTree(v, ast, 0, global);
    var (root, e1) := Prepare(v, ast);
    if !IsFunction(ast) {
      SameTreeWithInfo(t1, root.info);
      SameTreeTransitive(ast, t1, root);
    }
    var t2 := Resolve(v, root, 0, e1).0;
    ResolveKeepsTree(v, root, 0, e1);
    SameTreeTransitive(ast, root, t2);
    SameTreeUids(ast, t2);
  }

  /** Changing the information of a non-function node keeps it annotated. */
  lemma AnnotatedWithInfo(n: Node, m: Node, envs: Envs)
    requires Annotated(n, envs)
    requires m == n || (!IsFunction(n) && m == WithInfo(n, m.info))
    ensures Annotated(m, envs)
  {
    if m != n {
      assert Children(m) == Children(n);
      if n.Property? {
        assert m.value == n.value;
      } else if n.MemberExpression? {
        assert m.obj == n.obj && m.property == n.property && m.computed == n.computed;
      }
    }
  }

  /** When only the first scope is parentless, every chain ends there. */
  lemma RootIsGlobal(envs: Envs)
    requires Valid(envs) && 0 < |envs|
    requires forall i :: 0 < i < |envs| ==> envs[i].parent.Some?
    ensures forall i :: 0 <= i < |envs| ==> Root(envs, i) == 0
  {
  }

  /** The global scope declares exactly what the program hoists. */
  lemma AnalysisDeclares(v: Variant, ast: Node)
    requires NamesAreIdentifiers(ast) && !IsFunction(ast)
    ensures forall x :: Lookup(PerformBindingAnalysis(v, ast).1[0], x).bindingInstances
                     == Lookup(WithDecls(Env(ast.Uid(), None, map[]), Hoisted(v, ast)), x).bindingInstances
  {
    var global := [Env(ast.Uid(), None, map[])];
    DeclareHoists(v, ast, 0, global);
    var (root, e1) := Prepare(v, ast);
    assert e1 == Declare(v, ast, 0, global).1;
    ResolveKeepsDecls(v, root, 0, e1);
  }

  /** Pass 1 records no reference. */
  lemma {:induction false} DeclareParamsNoReferences(ps: seq<Node>, e: EnvId, envs: Envs)
    requires Valid(envs) && e < |envs|
    ensures References(DeclareParams(ps, e, envs)) == References(envs)
  {
    if ps != [] {
      var e1 := AddBindingInstance(envs, e, BindingName(ps[0]), ps[0].Uid());
      AddBindingKeepsReferences(envs, e, BindingName(ps[0]), ps[0].Uid());
      DeclareParamsNoReferences(ps[1..], e, e1);
    }
  }

  lemma EnterFunctionNoReferences(v: Variant, n: Node, env: EnvId, envs: Envs)
    requires IsFunction(n)
    requires Valid(envs) && env < |envs|
    ensures References(EnterFunction(v, n, env, envs)) == References(envs)
  {
    var fe := |envs|;
    var e1 := NewEnv(envs, n.Uid(), Some(env));
    NewEnvKeepsReferences(envs, n.Uid(), Some(env));
    var e2 := if v == Current then AddBindingInstance(e1, env, "arguments", n.Uid()) else e1;
    AddBindingKeepsReferences(e1, env, "arguments", n.Uid());
    var e3 := DeclareName(n, env, fe, e2);
    if n.FunctionDeclaration? {
      AddBindingKeepsReferences(e2, env, BindingName(n.id), n.id.Uid());
    } else if n.optId.Some? {
      AddBindingKeepsReferences(e2, fe, BindingName(n.optId.value), n.optId.value.Uid());
    }
    DeclareParamsNoReferences(n.params, fe, e3);
  }

  lemma {:induction false} DeclareNoReferences(v: Variant, n: Node, env: EnvId, envs: Envs)
    requires Valid(envs) && env < |envs|
    ensures References(Declare(v, n, env, envs).1) == References(envs)
    decreases n, 1
  {
    if IsFunction(n) {
      EnterFunctionNoReferences(v, n, env, envs);
      DeclareNoReferences(v, n.fnBody, |envs|, EnterFunction(v, n, env, envs));
    } else if n.VariableDeclarator? {
      var e1 := AddBindingInstance(envs, env, BindingName(n.id), n.Uid());
      AddBindingKeepsReferences(envs, env, BindingName(n.id), n.Uid());
      if n.init.Some? {
        DeclareNoReferences(v, n.init.value, env, e1);
      }
    } else {
      DeclareAllNoReferences(v, Children(n), n, env, envs);
    }
  }

  lemma {:induction false} DeclareAllNoReferences(v: Variant, cs: seq<Node>, bound: Node, env: EnvId, envs: Envs)
    requires forall i :: 0 <= i < |cs| ==> cs[i] < bound
    requires Valid(envs) && env < |envs|
    ensures References(DeclareAll(v, cs, bound, env, envs).1) == References(envs)
    decreases bound, 0, |cs|
  {
    if cs != [] {
      var (c, e1) := Declare(v, cs[0], env, envs);
      DeclareNoReferences(v, cs[0], env, envs);
      DeclareAllNoReferences(v, cs[1..], bound, env, e1);
    }
  }

  /** The analysis records exactly the references of the tree it was given. */
  lemma AnalysisRecords(v: Variant, ast: Node)
    requires NamesAreIdentifiers(ast)
    ensures References(PerformBindingAnalysis(v, ast).1) == Refs(v, ast)
  {
    var (root, e1) := Prepare(v, ast);
    PrepareRecordsNothing(v, ast);
    ResolveRecords(v, root, 0, e1);
  }

  /** Pass 1 and the root annotation keep the tree's references and record none. */
  lemma PrepareRecordsNothing(v: Variant, ast: Node)
    requires NamesAreIdentifiers(ast)
    ensures Refs(v, Prepare(v, ast).0) == Refs(v, ast)
    ensures References(Prepare(v, ast).1) == {}
  {
    var global := [Env(ast.Uid(), None, map[])];
    var t1 := Declare(v, ast, 0, global).0;
    DeclareKeepsRefs(v, ast, 0, global);
    var (root, e1) := Prepare(v, ast);
    RefsWithInfo(v, t1, root);
    NoReferencesInEmptyScope(ast.Uid(), None);
    assert e1 == Declare(v, ast, 0, global).1;
    DeclareNoReferences(v, ast, 0, global);
  }

  lemma RefsWithInfo(v: Variant, n: Node, m: Node)
    requires m == n || (!IsFunction(n) && m == WithInfo(n, m.info) && m.info.uid == n.info.uid)
    ensures Refs(v, m) == Refs(v, n)
  {
    if m != n {
      if !(n.Property? || n.MemberExpression? || n.Identifier? || n.ThisExpression?) {
        RefsAllPointwise(v, Children(m), m, Children(n), n);
      }
    }
  }
}
