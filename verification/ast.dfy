/** Shared vocabulary: JavaScript's `undefined` and `String.prototype.slice`. */
module Base {

  /** `None` stands for JavaScript's `undefined` (or an absent field). */
  datatype Option<+T> = None | Some(value: T)

  /**
   * Whether an operation follows the code as written or the correction of a
   * defect in it: the editor's recovery path starts a full parse without
   * stopping a busy worker; both renderers copy token values into the markup
   * unescaped; htmlconverter.js reuses the previous token's markup for token
   * types it does not list.
   */
  datatype Policy = AsWritten | Corrected

  function Max(a: int, b: int): int { if a < b then b else a }
  function Min(a: int, b: int): int { if a < b then a else b }

  /** How `String.prototype.slice` normalises an index: from the end when negative, then clamped. */
  function SliceIndex(i: int, len: nat): (r: nat)
    ensures r <= len
  {
    if i < 0 then Max(len + i, 0) else Min(i, len)
  }

  /** `s.slice(start, end)`. */
  function JsSlice(s: string, start: int, end: int): string {
    var a := SliceIndex(start, |s|);
    var b := SliceIndex(end, |s|);
    if a < b then s[a..b] else ""
  }
}

/**
 * The closed syntax tree the analyses run on: the node kinds the binding
 * analysis, the incremental reparse and the HTML rendering look at, plus one
 * generic node that carries an explicit list of children.
 */
module Ast {
  import opened Base

  /** Stands for JavaScript object identity (`node === other`). */
  type NodeId = nat

  /** Index of a scope in the scope arena (see module Scopes). */
  type EnvId = nat

  /** Half-open source range `[start, end)`, as produced with `range: true`. */
  datatype Range = Range(start: int, end: int)

  /**
   * What every node carries besides its kind-specific fields: its identity,
   * its range, the `rendered` flag the editor sets and clears, the scope a
   * function node owns (`node.bindings`) and the scope an identifier or
   * `this` resolved to (`node.boundIn`).
   */
  datatype Info = Info(uid: NodeId, range: Range, rendered: bool,
                       bindings: Option<EnvId>, boundIn: Option<EnvId>)

  datatype Node =
    | Program(info: Info, body: seq<Node>)
    | FunctionDeclaration(info: Info, id: Node, params: seq<Node>, fnBody: Node)
    | FunctionExpression(info: Info, optId: Option<Node>, params: seq<Node>, fnBody: Node)
    | VariableDeclarator(info: Info, id: Node, init: Option<Node>)
    | Identifier(info: Info, name: string)
    | ThisExpression(info: Info)
    | MemberExpression(info: Info, obj: Node, property: Node, computed: bool)
    | Property(info: Info, key: Node, value: Node)
    | Literal(info: Info)
      /** Any other node kind (`tag` is its `type` string) with its children in field order. */
    | Other(info: Info, tag: string, children: seq<Node>)
  {
    function Uid(): NodeId { info.uid }
    function Start(): int { info.range.start }
    function End(): int { info.range.end }
  }

  /** `isFunction` of the editor. */
  predicate IsFunction(n: Node) {
    n.FunctionDeclaration? || n.FunctionExpression?
  }

  /** The name identifier of a function, if it has one. */
  function FunctionId(n: Node): Option<Node>
    requires IsFunction(n)
  {
    if n.FunctionDeclaration? then Some(n.id) else n.optId
  }

  /**
   * The name a binding position contributes: `node.name`, which JavaScript
   * turns into the key "undefined" when the node is not an identifier.
   */
  function BindingName(n: Node): string {
    if n.Identifier? then n.name else "undefined"
  }

  /** The node-valued children, in the order estraverse and `for ... in` visit them. */
  function Children(n: Node): (r: seq<Node>)
    ensures forall i :: 0 <= i < |r| ==> r[i] < n
  {
    match n
    case Program(_, body) => body
    case FunctionDeclaration(_, id, params, body) => [id] + params + [body]
    case FunctionExpression(_, optId, params, body) =>
      (if optId.Some? then [optId.value] else []) + params + [body]
    case VariableDeclarator(_, id, init) => [id] + (if init.Some? then [init.value] else [])
    case Identifier(_, _) => []
    case ThisExpression(_) => []
    case MemberExpression(_, obj, property, _) => [obj, property]
    case Property(_, key, value) => [key, value]
    case Literal(_) => []
    case Other(_, _, children) => children
  }

  /** Puts a list of children back into the positions `Children` took them from. */
  function WithChildren(n: Node, cs: seq<Node>): (r: Node)
    requires |cs| == |Children(n)|
    ensures Children(r) == cs
    ensures r.info == n.info
    ensures IsFunction(r) == IsFunction(n) && r.FunctionExpression? == n.FunctionExpression?
  {
    match n
    case Program(info, _) => Program(info, cs)
    case FunctionDeclaration(info, _, params, _) =>
      assert cs == [cs[0]] + cs[1..|cs| - 1] + [cs[|cs| - 1]];
      FunctionDeclaration(info, cs[0], cs[1..|cs| - 1], cs[|cs| - 1])
    case FunctionExpression(info, optId, params, _) =>
      if optId.Some? then
        assert cs == [cs[0]] + cs[1..|cs| - 1] + [cs[|cs| - 1]];
        FunctionExpression(info, Some(cs[0]), cs[1..|cs| - 1], cs[|cs| - 1])
      else
        assert cs == [] + cs[..|cs| - 1] + [cs[|cs| - 1]];
        FunctionExpression(info, None, cs[..|cs| - 1], cs[|cs| - 1])
    case VariableDeclarator(info, _, init) =>
      if init.Some? then VariableDeclarator(info, cs[0], Some(cs[1]))
      else VariableDeclarator(info, cs[0], None)
    case Identifier(_, _) => n
    case ThisExpression(_) => n
    case MemberExpression(info, _, _, computed) => MemberExpression(info, cs[0], cs[1], computed)
    case Property(info, _, _) => Property(info, cs[0], cs[1])
    case Literal(_) => n
    case Other(info, tag, _) => Other(info, tag, cs)
  }

  /** Replaces the per-node information and keeps kind and children. */
  function WithInfo(n: Node, info: Info): (r: Node)
    ensures r.info == info && Children(r) == Children(n)
    ensures IsFunction(r) == IsFunction(n) && r.FunctionExpression? == n.FunctionExpression?
  {
    n.(info := info)
  }

  /** Every uid occurring in the tree. */
  function Uids(n: Node): set<NodeId>
    decreases n, 1
  {
    {n.Uid()} + UidsAll(Children(n), n)
  }

  function UidsAll(cs: seq<Node>, ghost bound: Node): set<NodeId>
    requires forall i :: 0 <= i < |cs| ==> cs[i] < bound
    decreases bound, 0, |cs|
  {
    if cs == [] then {} else Uids(cs[0]) + UidsAll(cs[1..], bound)
  }

  /** All nodes in estraverse's pre-order. */
  function PreOrder(n: Node): (r: seq<Node>)
    ensures |r| > 0 && r[0] == n
    decreases n, 1
  {
    [n] + PreOrderAll(Children(n), n)
  }

  function PreOrderAll(cs: seq<Node>, ghost bound: Node): seq<Node>
    requires forall i :: 0 <= i < |cs| ==> cs[i] < bound
    decreases bound, 0, |cs|
  {
    if cs == [] then [] else PreOrder(cs[0]) + PreOrderAll(cs[1..], bound)
  }

  /** `a` contains `p` in the half-open sense used by the function search. */
  predicate Contains(r: Range, p: int) {
    r.start <= p < r.end
  }

  /**
   * Ranges are properly nested: each node's range is well formed, every
   * child lies inside its parent, and siblings are ordered and disjoint.
   */
  predicate Nested(n: Node)
    decreases n
  {
    && n.Start() <= n.End()
    && (forall i :: 0 <= i < |Children(n)| ==>
          && Nested(Children(n)[i])
          && n.Start() <= Children(n)[i].Start()
          && Children(n)[i].End() <= n.End())
    && (forall i, k :: 0 <= i < k < |Children(n)| ==> Children(n)[i].End() <= Children(n)[k].Start())
  }

  /** Putting back a node's own children gives the node back. */
  lemma WithOwnChildren(n: Node)
    ensures WithChildren(n, Children(n)) == n
  {
    match n
    case FunctionDeclaration(info, id, params, body) =>
      var cs := Children(n);
      assert cs[1..|cs| - 1] == params;
    case FunctionExpression(info, optId, params, body) =>
      var cs := Children(n);
      if optId.Some? {
        assert cs[1..|cs| - 1] == params;
      } else {
        assert cs[..|cs| - 1] == params;
      }
    case _ =>
  }

  /** Replacing the information after the children is the same as replacing it first. */
  lemma WithInfoWithChildren(n: Node, first: Info, cs: seq<Node>, info: Info)
    requires |cs| == |Children(n)|
    ensures WithInfo(WithChildren(WithInfo(n, first), cs), info) == WithChildren(WithInfo(n, info), cs)
  {
    match n
    case Program(_, _) =>
    case FunctionDeclaration(_, _, _, _) =>
    case FunctionExpression(_, optId, _, _) =>
      if optId.Some? { } else { }
    case VariableDeclarator(_, _, init) =>
      if init.Some? { } else { }
    case Identifier(_, _) =>
    case ThisExpression(_) =>
    case MemberExpression(_, _, _, _) =>
    case Property(_, _, _) =>
    case Literal(_) =>
    case Other(_, _, _) =>
  }

  /** Replacing the children twice keeps only the second replacement. */
  lemma WithChildrenTwice(n: Node, cs: seq<Node>, ds: seq<Node>)
    requires |cs| == |Children(n)| == |ds|
    ensures WithChildren(WithChildren(n, cs), ds) == WithChildren(n, ds)
  {
    match n
    case Program(_, _) =>
    case FunctionDeclaration(_, _, _, _) =>
    case FunctionExpression(_, optId, _, _) =>
      if optId.Some? { } else { }
    case VariableDeclarator(_, _, init) =>
      if init.Some? { } else { }
    case Identifier(_, _) =>
    case ThisExpression(_) =>
    case MemberExpression(_, _, _, _) =>
    case Property(_, _, _) =>
    case Literal(_) =>
    case Other(_, _, _) =>
  }

  /** `u` occurs in a list of trees exactly when it occurs in one of them. */
  lemma UidsAllMember(cs: seq<Node>, bound: Node, u: NodeId)
    requires forall i :: 0 <= i < |cs| ==> cs[i] < bound
    ensures u in UidsAll(cs, bound) <==> exists k :: 0 <= k < |cs| && u in Uids(cs[k])
  {
    if cs != [] {
      UidsAllMember(cs[1..], bound, u);
      if u in UidsAll(cs[1..], bound) {
        var k :| 0 <= k < |cs[1..]| && u in Uids(cs[1..][k]);
        assert u in Uids(cs[k + 1]);
      }
      if exists k :: 0 <= k < |cs| && u in Uids(cs[k]) {
        var k :| 0 <= k < |cs| && u in Uids(cs[k]);
        if k > 0 { assert cs[1..][k - 1] == cs[k]; }
      }
    }
  }

  /**
   * A tree as the parser gives it: no node carries a scope annotation yet,
   * and every parameter is an identifier (ES5 has no destructuring).
   */
  predicate Unanalysed(n: Node)
    decreases n
  {
    && n.info.bindings.None? && n.info.boundIn.None?
    && (IsFunction(n) ==> forall i :: 0 <= i < |n.params| ==> n.params[i].Identifier?)
    && forall i :: 0 <= i < |Children(n)| ==> Unanalysed(Children(n)[i])
  }

  /*
   * Trees that differ only in their scope annotations.
   */

  /** `info` without the scope annotations `bindings` and `boundIn`. */
  function Unannotated(info: Info): Info {
    info.(bindings := None, boundIn := None)
  }

  /**
   * `b` is `a` with at most the scope annotations (`bindings`, `boundIn`)
   * of its nodes changed: node for node the same kinds, names, uids,
   * ranges, `rendered` flags and children.
   */
  predicate SameTree(a: Node, b: Node)
    decreases a
  {
    && Unannotated(b.info) == Unannotated(a.info)
    && |Children(b)| == |Children(a)|
    && b == WithChildren(WithInfo(a, b.info), Children(b))
    && forall i :: 0 <= i < |Children(a)| ==> SameTree(Children(a)[i], Children(b)[i])
  }

  lemma {:induction false} SameTreeRefl(a: Node)
    ensures SameTree(a, a)
    decreases a
  {
    WithOwnChildren(a);
    forall i | 0 <= i < |Children(a)| ensures SameTree(Children(a)[i], Children(a)[i]) {
      SameTreeRefl(Children(a)[i]);
    }
  }

  /** A node rebuilt from annotated copies of its children, with its annotations changed, is the same tree. */
  lemma SameTreeStep(a: Node, info: Info, cs: seq<Node>)
    requires |cs| == |Children(a)| && Unannotated(info) == Unannotated(a.info)
    requires forall i :: 0 <= i < |cs| ==> SameTree(Children(a)[i], cs[i])
    ensures SameTree(a, WithChildren(WithInfo(a, info), cs))
  {
  }

  /** Changing only the annotations of a node keeps the tree. */
  lemma SameTreeWithInfo(a: Node, info: Info)
    requires Unannotated(info) == Unannotated(a.info)
    ensures SameTree(a, WithInfo(a, info))
  {
    WithOwnChildren(WithInfo(a, info));
    forall i | 0 <= i < |Children(a)| ensures SameTree(Children(a)[i], Children(a)[i]) {
      SameTreeRefl(Children(a)[i]);
    }
  }

  /** Two lists of trees that are the same tree position by position. */
  predicate SameTrees(xs: seq<Node>, ys: seq<Node>) {
    |ys| == |xs| && forall i :: 0 <= i < |xs| ==> SameTree(xs[i], ys[i])
  }

  lemma SameTreesRefl(xs: seq<Node>)
    ensures SameTrees(xs, xs)
  {
    forall i | 0 <= i < |xs| ensures SameTree(xs[i], xs[i]) {
      SameTreeRefl(xs[i]);
    }
  }

  lemma SameTreesCons(xs: seq<Node>, y: Node, ys: seq<Node>)
    requires xs != [] && SameTree(xs[0], y) && SameTrees(xs[1..], ys)
    ensures SameTrees(xs, [y] + ys)
  {
    forall i | 0 <= i < |xs| ensures SameTree(xs[i], ([y] + ys)[i]) {
      if i > 0 { assert xs[i] == xs[1..][i - 1] && ([y] + ys)[i] == ys[i - 1]; }
    }
  }

  lemma SameTreesConcat(xs1: seq<Node>, xs2: seq<Node>, ys1: seq<Node>, ys2: seq<Node>)
    requires SameTrees(xs1, ys1) && SameTrees(xs2, ys2)
    ensures SameTrees(xs1 + xs2, ys1 + ys2)
  {
    forall i | 0 <= i < |xs1 + xs2| ensures SameTree((xs1 + xs2)[i], (ys1 + ys2)[i]) {
      if i >= |xs1| {
        assert (xs1 + xs2)[i] == xs2[i - |xs1|] && (ys1 + ys2)[i] == ys2[i - |xs1|];
      }
    }
  }

  /** A function rebuilt from the same kind of parts, each the same tree, is the same tree. */
  lemma SameTreeFunction(a: Node, b: Node)
    requires IsFunction(a) && a.FunctionDeclaration? == b.FunctionDeclaration?
    requires IsFunction(b) && Unannotated(b.info) == Unannotated(a.info)
    requires FunctionId(a).Some? == FunctionId(b).Some?
    requires FunctionId(a).Some? ==> SameTree(FunctionId(a).value, FunctionId(b).value)
    requires SameTrees(a.params, b.params) && SameTree(a.fnBody, b.fnBody)
    ensures SameTree(a, b)
  {
    FunctionRebuilt(a, b);
    var ia := if FunctionId(a).Some? then [FunctionId(a).value] else [];
    var ib := if FunctionId(b).Some? then [FunctionId(b).value] else [];
    SameTreesConcat(ia, a.params, ib, b.params);
    SameTreesConcat(ia + a.params, [a.fnBody], ib + b.params, [b.fnBody]);
    assert Children(a) == ia + a.params + [a.fnBody];
    assert Children(b) == ib + b.params + [b.fnBody];
    SameTreeFromChildren(a, b);
  }

  /** A node whose fields around the children are `a`'s, with the same tree at every child, is the same tree. */
  lemma SameTreeFromChildren(a: Node, b: Node)
    requires Unannotated(b.info) == Unannotated(a.info) && SameTrees(Children(a), Children(b))
    requires b == WithChildren(WithInfo(a, b.info), Children(b))
    ensures SameTree(a, b)
  {
  }

  /** Putting a function's children into another function of the same kind and shape gives the first one back. */
  lemma FunctionRebuilt(a: Node, b: Node)
    requires IsFunction(a) && a.FunctionDeclaration? == b.FunctionDeclaration?
    requires IsFunction(b) && FunctionId(a).Some? == FunctionId(b).Some?
    requires |b.params| == |a.params|
    ensures |Children(b)| == |Children(a)|
    ensures b == WithChildren(WithInfo(a, b.info), Children(b))
  {
    WithOwnChildren(b);
    if a.FunctionDeclaration? {
      assert WithChildren(WithInfo(a, b.info), Children(b)) == WithChildren(b, Children(b));
    } else if a.optId.Some? {
      assert WithChildren(WithInfo(a, b.info), Children(b)) == WithChildren(b, Children(b));
    } else {
      assert WithChildren(WithInfo(a, b.info), Children(b)) == WithChildren(b, Children(b));
    }
  }

  lemma {:induction false} SameTreeTransitive(a: Node, b: Node, c: Node)
    requires SameTree(a, b) && SameTree(b, c)
    ensures SameTree(a, c)
    decreases a
  {
    forall i | 0 <= i < |Children(a)| ensures SameTree(Children(a)[i], Children(c)[i]) {
      SameTreeTransitive(Children(a)[i], Children(b)[i], Children(c)[i]);
    }
    WithChildrenTwice(WithInfo(a, c.info), Children(b), Children(c));
    assert WithInfo(WithChildren(WithInfo(a, b.info), Children(b)), c.info)
        == WithChildren(WithInfo(a, c.info), Children(b)) by {
      WithInfoWithChildren(a, b.info, Children(b), c.info);
    }
  }

  /** The same tree holds the same uids. */
  lemma {:induction false} SameTreeUids(a: Node, b: Node)
    requires SameTree(a, b)
    ensures Uids(b) == Uids(a)
    decreases a, 1
  {
    SameTreeUidsAll(Children(a), a, Children(b), b);
  }

  lemma {:induction false} SameTreeUidsAll(xs: seq<Node>, xb: Node, ys: seq<Node>, yb: Node)
    requires forall i :: 0 <= i < |xs| ==> xs[i] < xb
    requires forall i :: 0 <= i < |ys| ==> ys[i] < yb
    requires |xs| == |ys| && forall i :: 0 <= i < |xs| ==> SameTree(xs[i], ys[i])
    ensures UidsAll(ys, yb) == UidsAll(xs, xb)
    decreases xb, 0, |xs|
  {
    if xs != [] {
      SameTreeUids(xs[0], ys[0]);
      SameTreeUidsAll(xs[1..], xb, ys[1..], yb);
    }
  }
}
