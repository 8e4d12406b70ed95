/**
 * visitor.js: a fold over the node kinds of the SpiderMonkey Parser API.
 * A caller supplies a handler per node type it cares about and a
 * `mergeResults` combiner; every other handled type gets a default
 * traversal over its node-valued fields.
 */
module Visitor {
  import opened Base

  /** The JavaScript values the visitor meets: nodes are objects, lists are arrays. */
  datatype Val =
    | Undef
    | Null
    | Bool(b: bool)
    | Num(n: int)
    | Str(s: string)
    | Arr(items: seq<Val>)
    | Obj(fields: seq<Field>)

  datatype Field = Field(name: string, value: Val)

  /** How deeply arrays and objects nest in a value. */
  function Depth(v: Val): nat
    decreases v
  {
    match v
    case Arr(items) => 1 + DepthAll(items)
    case Obj(fs) => 1 + DepthFields(fs)
    case _ => 0
  }

  function DepthAll(xs: seq<Val>): nat
    decreases xs
  {
    if xs == [] then 0 else Max(Depth(xs[0]), DepthAll(xs[1..]))
  }

  function DepthFields(fs: seq<Field>): nat
    decreases fs
  {
    if fs == [] then 0 else Max(Depth(fs[0].value), DepthFields(fs[1..]))
  }

  lemma {:induction false} DepthAllBounds(xs: seq<Val>)
    ensures forall i :: 0 <= i < |xs| ==> Depth(xs[i]) <= DepthAll(xs)
    decreases |xs|
  {
    if xs != [] {
      DepthAllBounds(xs[1..]);
      forall i | 0 < i < |xs| ensures Depth(xs[i]) <= DepthAll(xs) {
        assert xs[i] == xs[1..][i - 1];
      }
    }
  }

  lemma {:induction false} DepthAllBelow(xs: seq<Val>, m: nat)
    requires forall i :: 0 <= i < |xs| ==> Depth(xs[i]) <= m
    ensures DepthAll(xs) <= m
    decreases |xs|
  {
    if xs != [] {
      DepthAllBelow(xs[1..], m);
    }
  }

  /** `v[name]`: the first field of that name, `undefined` when there is none or `v` is not an object. */
  function Get(v: Val, name: string): (r: Val)
    ensures v.Obj? ==> Depth(r) < Depth(v)
    ensures !v.Obj? ==> r == Undef
  {
    if v.Obj? then Lookup(v.fields, name) else Undef
  }

  function Lookup(fs: seq<Field>, name: string): (r: Val)
    ensures Depth(r) <= DepthFields(fs)
    ensures r == Undef || exists i :: 0 <= i < |fs| && fs[i].name == name && fs[i].value == r
  {
    if fs == [] then Undef
    else if fs[0].name == name then fs[0].value
    else
      var r := Lookup(fs[1..], name);
      assert r != Undef ==> exists i :: 0 <= i < |fs| && fs[i].name == name && fs[i].value == r by {
        if r != Undef {
          var i :| 0 <= i < |fs[1..]| && fs[1..][i].name == name && fs[1..][i].value == r;
          assert fs[i + 1] == fs[1..][i];
        }
      }
      r
  }

  /** The values of the named fields of a node, in the order given. */
  function Args(v: Val, names: seq<string>): (r: seq<Val>)
    ensures |r| == |names|
    ensures forall i :: 0 <= i < |r| ==> r[i] == Get(v, names[i])
  {
    if names == [] then [] else [Get(v, names[0])] + Args(v, names[1..])
  }

  /** The fields of an object node lie strictly below it. */
  lemma ArgsBelow(v: Val, names: seq<string>)
    requires v.Obj?
    ensures Depth(Arr(Args(v, names))) <= Depth(v)
  {
    DepthAllBelow(Args(v, names), Depth(v) - 1);
  }

  /**
   * `toTraverse` of an object expression: the key, then the value, of each
   * property in turn (a list that is not an array contributes nothing).
   */
  function KeysValues(props: Val): seq<Val> {
    if props.Arr? then Pairs(props.items) else []
  }

  function Pairs(ps: seq<Val>): (r: seq<Val>)
    ensures |r| == 2 * |ps|
  {
    if ps == [] then [] else [Get(ps[0], "key"), Get(ps[0], "value")] + Pairs(ps[1..])
  }

  /** The object expression's list holds each property's key followed by its value, property by property. */
  lemma {:induction false} PairsAt(ps: seq<Val>)
    ensures forall i :: 0 <= i < |ps| ==>
      Pairs(ps)[2 * i] == Get(ps[i], "key") && Pairs(ps)[2 * i + 1] == Get(ps[i], "value")
    decreases |ps|
  {
    if ps != [] {
      PairsAt(ps[1..]);
      var r := Pairs(ps);
      var rest := Pairs(ps[1..]);
      forall i | 1 <= i < |ps| ensures r[2 * i] == Get(ps[i], "key") && r[2 * i + 1] == Get(ps[i], "value") {
        var k := i - 1;
        assert ps[i] == ps[1..][k];
        assert r[2 * i] == rest[2 * k];
        assert r[2 * i + 1] == rest[2 * k + 1];
      }
    }
  }

  lemma {:induction false} PairsBelow(ps: seq<Val>, m: nat)
    requires forall i :: 0 <= i < |ps| ==> Depth(ps[i]) <= m
    ensures forall j :: 0 <= j < |Pairs(ps)| ==> Depth(Pairs(ps)[j]) <= m
    decreases |ps|
  {
    if ps != [] {
      PairsBelow(ps[1..], m);
      var r := Pairs(ps);
      forall j | 2 <= j < |r| ensures Depth(r[j]) <= m {
        assert r[j] == Pairs(ps[1..])[j - 2];
      }
    }
  }

  lemma KeysValuesBelow(v: Val)
    requires v.Obj?
    ensures Depth(Arr(KeysValues(Get(v, "properties")))) <= Depth(v)
  {
    var props := Get(v, "properties");
    var kv := KeysValues(props);
    if props.Arr? {
      DepthAllBounds(props.items);
      PairsBelow(props.items, Depth(v) - 1);
    }
    DepthAllBelow(kv, Depth(v) - 1);
  }

  /** What `traverse` does by default with a node whose type has no handler. */
  datatype Default =
    | Nothing
    | TraverseOne(field: string)
    | TraverseFields(fields: seq<string>)
    | KeysAndValues(field: string)

  /** For a handled node type: the fields handed to its handler, and the default traversal. */
  datatype Shape = Shape(handlerArgs: seq<string>, default: Default)

  /** The node types `traverse` knows; any other type string is ignored. */
  function ShapeOf(ty: string): Option<Shape> {
    match ty
    case "Program" => Some(Shape(["body"], TraverseFields(["body"])))
    case "EmptyStatement" => Some(Shape([], Nothing))
    case "BlockStatement" => Some(Shape(["body"], TraverseFields(["body"])))
    case "ExpressionStatement" => Some(Shape(["expression"], TraverseOne("expression")))
    case "IfStatement" =>
      Some(Shape(["test", "consequent", "alternate"], TraverseFields(["test", "consequent", "alternate"])))
    case "LabeledStatement" => Some(Shape(["label", "body"], TraverseFields(["label", "body"])))
    case "BreakStatement" => Some(Shape(["label"], TraverseFields(["label"])))
    case "ContinueStatement" => Some(Shape(["label"], TraverseFields(["label"])))
    case "WithStatement" => Some(Shape(["object", "body"], TraverseFields(["object", "body"])))
    case "SwitchStatement" =>
      Some(Shape(["discriminant", "cases", "lexical"], TraverseFields(["discriminant", "cases"])))
    case "ReturnStatement" => Some(Shape(["argument"], TraverseFields(["argument"])))
    case "ThrowStatement" => Some(Shape(["argument"], TraverseFields(["argument"])))
    case "TryStatement" =>
      Some(Shape(["block", "handler", "guardedHandlers", "finalizer"],
                 TraverseFields(["block", "handler", "guardedHandlers", "finalizer"])))
    case "WhileStatement" => Some(Shape(["test", "body"], TraverseFields(["test", "body"])))
    case "DoWhileStatement" => Some(Shape(["body", "test"], TraverseFields(["body", "test"])))
    case "ForStatement" =>
      Some(Shape(["init", "test", "update", "body"], TraverseFields(["init", "test", "update", "body"])))
    case "ForInStatement" =>
      Some(Shape(["left", "right", "body", "each"], TraverseFields(["left", "right", "body"])))
    case "ForOfStatement" => Some(Shape(["left", "right", "body"], TraverseFields(["left", "right", "body"])))
    case "FunctionDeclaration" => Some(FunctionShape())
    case "VariableDeclaration" => Some(Shape(["declarations", "kind"], TraverseFields(["declarations"])))
    case "VariableDeclarator" => Some(Shape(["id", "init"], TraverseFields(["id", "init"])))
    case "ThisExpression" => Some(Shape([], Nothing))
    case "ArrayExpression" => Some(Shape(["elements"], TraverseFields(["elements"])))
    case "ObjectExpression" => Some(Shape(["properties"], KeysAndValues("properties")))
    case "FunctionExpression" => Some(FunctionShape())
    case "SequenceExpression" => Some(Shape(["expressions"], TraverseFields(["expressions"])))
    case "UnaryExpression" => Some(Shape(["operator", "prefix", "argument"], TraverseFields(["argument"])))
    case "BinaryExpression" => Some(Shape(["operator", "left", "right"], TraverseFields(["left", "right"])))
    case "AssignmentExpression" => Some(Shape(["operator", "left", "right"], TraverseFields(["left", "right"])))
    case "UpdateExpression" => Some(Shape(["operator", "argument", "prefix"], TraverseFields(["argument"])))
    case "LogicalExpression" => Some(Shape(["operator", "left", "right"], TraverseFields(["left", "right"])))
    case "ConditionalExpression" =>
      Some(Shape(["test", "alternate", "consequent"], TraverseFields(["test", "alternate", "consequent"])))
    case "NewExpression" => Some(Shape(["callee", "arguments"], TraverseFields(["callee", "arguments"])))
    case "CallExpression" => Some(Shape(["callee", "arguments"], TraverseFields(["callee", "arguments"])))
    case "MemberExpression" => Some(Shape(["object", "property", "computed"], TraverseFields(["object", "property"])))
    case "SwitchCase" => Some(Shape(["test", "consequent"], TraverseFields(["test", "consequent"])))
    case "CatchClause" => Some(Shape(["param", "guard", "body"], TraverseFields(["param", "guard", "body"])))
    case "Identifier" => Some(Shape(["name"], Nothing))
    case "Literal" => Some(Shape(["value"], Nothing))
    case _ => None
  }

  function FunctionShape(): Shape {
    Shape(["id", "params", "defaults", "rest", "body", "generator", "expression"],
          TraverseFields(["id", "params", "defaults", "rest", "body"]))
  }

  /** A handler: called with the node as `this` and the fields its type lists. */
  type Handler<R> = (Val, seq<Val>) -> Option<R>

  /** `mergeResults`; `None` stands for `undefined`. */
  type Merge<!R> = (Option<R>, Option<R>) -> Option<R>

  /** The node type `traverse` dispatches on, if `v` is a node of a handled type. */
  function TypeOf(v: Val): Option<string> {
    var ty := Get(v, "type");
    if ty.Str? && ShapeOf(ty.s).Some? then Some(ty.s) else None
  }

  /** `traverse(node)`. */
  function Traverse<R>(visit: map<string, Handler<R>>, merge: Merge<R>, v: Val): Option<R>
    decreases Depth(v), 2
  {
    match TypeOf(v)
    case None => None
    case Some(ty) =>
      var shape := ShapeOf(ty).value;
      if ty in visit then visit[ty](v, Args(v, shape.handlerArgs))
      else
        match shape.default
        case Nothing => None
        case TraverseOne(f) => Traverse(visit, merge, Get(v, f))
        case TraverseFields(fs) =>
          ArgsBelow(v, fs);
          TraverseAll(visit, merge, Args(v, fs))
        case KeysAndValues(f) =>
          assert f == "properties";
          KeysValuesBelow(v);
          TraverseAll(visit, merge, KeysValues(Get(v, f)))
  }

  /**
   * `traverseAll(a1, ..., an)`: pops the last argument; an undefined one
   * ends the call, a lone array is spread into the arguments, a lone node is
   * traversed, and otherwise the last argument's result is merged with the
   * result for the others.
   */
  function TraverseAll<R>(visit: map<string, Handler<R>>, merge: Merge<R>, args: seq<Val>): Option<R>
    decreases Depth(Arr(args)), 1, |args|
  {
    if args == [] then None
    else
      var first := args[|args| - 1];
      DepthAllBounds(args);
      if first == Undef then None
      else if |args| == 1 then
        if first.Arr? then TraverseAll(visit, merge, first.items) else Traverse(visit, merge, first)
      else
        DepthAllBelow([first], DepthAll(args));
        DepthAllBounds(args[..|args| - 1]);
        DepthAllBelow(args[..|args| - 1], DepthAll(args));
        merge(TraverseAll(visit, merge, [first]), TraverseAll(visit, merge, args[..|args| - 1]))
  }

  /* ---------------- what traverse and traverseAll promise ---------------- */

  /** The node types whose default traversal returns `undefined` without looking inside. */
  predicate Leaf(ty: string) {
    ty == "EmptyStatement" || ty == "ThisExpression" || ty == "Identifier" || ty == "Literal"
  }

  /** Exactly the four leaf types have no default traversal. */
  lemma LeafTypes(ty: string)
    ensures ShapeOf(ty).Some? && ShapeOf(ty).value.default.Nothing? <==> Leaf(ty)
  {
    if ShapeOf(ty).Some? && ShapeOf(ty).value.default.Nothing? {
      NothingIsLeaf(ty);
    }
    if ty == "EmptyStatement" {
      EmptyStatementShape();
    } else if ty == "ThisExpression" {
      ThisExpressionShape();
    } else if ty == "Identifier" {
      IdentifierShape();
    } else if ty == "Literal" {
      LiteralShape();
    }
  }

  lemma NothingIsLeaf(ty: string)
    requires ShapeOf(ty).Some? && ShapeOf(ty).value.default.Nothing?
    ensures Leaf(ty)
  {
  }

  lemma EmptyStatementShape()
    ensures ShapeOf("EmptyStatement") == Some(Shape([], Nothing))
  {
  }

  lemma ThisExpressionShape()
    ensures ShapeOf("ThisExpression") == Some(Shape([], Nothing))
  {
  }

  lemma IdentifierShape()
    ensures ShapeOf("Identifier") == Some(Shape(["name"], Nothing))
  {
  }

  lemma LiteralShape()
    ensures ShapeOf("Literal") == Some(Shape(["value"], Nothing))
  {
  }

  /**
   * `traverse` ignores anything that is not a node of a handled type, hands
   * a node with a handler to it (with the fields its type lists), and gives
   * `undefined` for a leaf without one.
   */
  lemma TraverseDispatch<R>(visit: map<string, Handler<R>>, merge: Merge<R>, v: Val)
    ensures !v.Obj? || !Get(v, "type").Str? || ShapeOf(Get(v, "type").s).None? ==> Traverse(visit, merge, v) == None
    ensures TypeOf(v).Some? && TypeOf(v).value in visit ==>
      Traverse(visit, merge, v) == visit[TypeOf(v).value](v, Args(v, ShapeOf(TypeOf(v).value).value.handlerArgs))
    ensures TypeOf(v).Some? && TypeOf(v).value !in visit && Leaf(TypeOf(v).value) ==> Traverse(visit, merge, v) == None
  {
    if TypeOf(v).Some? {
      LeafTypes(TypeOf(v).value);
    }
  }

  /** Without a handler, an object expression traverses each property's key, then its value, as one list. */
  lemma ObjectDefault<R>(visit: map<string, Handler<R>>, merge: Merge<R>, v: Val)
    requires TypeOf(v) == Some("ObjectExpression") && "ObjectExpression" !in visit
    requires Get(v, "properties").Arr?
    ensures var ps := Get(v, "properties").items;
      && Traverse(visit, merge, v) == TraverseAll(visit, merge, Pairs(ps))
      && forall i :: 0 <= i < |ps| ==>
           Pairs(ps)[2 * i] == Get(ps[i], "key") && Pairs(ps)[2 * i + 1] == Get(ps[i], "value")
  {
    ObjectTraversesKeysValues(visit, merge, v);
    PairsAt(Get(v, "properties").items);
  }

  lemma ObjectTraversesKeysValues<R>(visit: map<string, Handler<R>>, merge: Merge<R>, v: Val)
    requires TypeOf(v) == Some("ObjectExpression") && "ObjectExpression" !in visit
    ensures Traverse(visit, merge, v) == TraverseAll(visit, merge, KeysValues(Get(v, "properties")))
  {
    ObjectShape();
  }

  lemma ObjectShape()
    ensures ShapeOf("ObjectExpression") == Some(Shape(["properties"], KeysAndValues("properties")))
  {
  }

  /** No arguments, or a single empty array, give `undefined`. */
  lemma NothingToTraverse<R>(visit: map<string, Handler<R>>, merge: Merge<R>)
    ensures TraverseAll(visit, merge, []) == None
    ensures TraverseAll(visit, merge, [Arr([])]) == None
  {
  }

  /** A single array argument is spread into the arguments. */
  lemma SpreadSingle<R>(visit: map<string, Handler<R>>, merge: Merge<R>, xs: seq<Val>)
    ensures TraverseAll(visit, merge, [Arr(xs)]) == TraverseAll(visit, merge, xs)
  {
  }

  /** The last argument is traversed on its own and its result merged in front of the rest. */
  lemma LastFirst<R>(visit: map<string, Handler<R>>, merge: Merge<R>, a: seq<Val>, x: Val)
    requires a != [] && x != Undef
    ensures TraverseAll(visit, merge, a + [x]) == merge(TraverseAll(visit, merge, [x]), TraverseAll(visit, merge, a))
  {
    assert (a + [x])[..|a|] == a;
  }

  /** An `undefined` argument hides every argument to its left. */
  lemma {:induction false} UndefinedHidesLeft<R>(visit: map<string, Handler<R>>, merge: Merge<R>, a: seq<Val>, b: seq<Val>)
    ensures TraverseAll(visit, merge, a + [Undef] + b) == TraverseAll(visit, merge, [Undef] + b)
    ensures b == [] ==> TraverseAll(visit, merge, a + [Undef]) == None
    decreases |b|
  {
    var args := a + [Undef] + b;
    var short := [Undef] + b;
    if b == [] {
      assert args[|args| - 1] == Undef;
      assert a + [Undef] + [] == a + [Undef];
    } else {
      var x := b[|b| - 1];
      var init := b[..|b| - 1];
      UndefinedHidesLeft(visit, merge, a, init);
      assert args[..|args| - 1] == a + [Undef] + init;
      assert short[..|short| - 1] == [Undef] + init;
      assert args[|args| - 1] == x && short[|short| - 1] == x;
    }
  }

  /** `null` does not end the call: it is traversed (to `undefined`) and merged like any value. */
  lemma NullMerged<R>(visit: map<string, Handler<R>>, merge: Merge<R>, a: seq<Val>)
    requires a != []
    ensures TraverseAll(visit, merge, a + [Null]) == merge(None, TraverseAll(visit, merge, a))
  {
    LastFirst(visit, merge, a, Null);
  }

  /* ---------------- traverseAll as a fold ---------------- */

  /** No `undefined` anywhere in a value's arrays. */
  predicate Defined(x: Val)
    decreases x
  {
    x != Undef && (x.Arr? ==> forall i :: 0 <= i < |x.items| ==> Defined(x.items[i]))
  }

  /** The arguments with every array spread in place, at any depth. */
  function Flatten(args: seq<Val>): seq<Val>
    decreases args
  {
    if args == [] then [] else Spread(args[0]) + Flatten(args[1..])
  }

  function Spread(x: Val): seq<Val>
    decreases x
  {
    if x.Arr? then Flatten(x.items) else [x]
  }

  function Reverse<T>(s: seq<T>): (r: seq<T>)
    ensures |r| == |s|
    ensures forall i :: 0 <= i < |s| ==> r[i] == s[|s| - 1 - i]
  {
    if s == [] then [] else Reverse(s[1..]) + [s[0]]
  }

  /** The traversal results of `xs`, merged from the left. */
  function Fold<R>(visit: map<string, Handler<R>>, merge: Merge<R>, xs: seq<Val>): Option<R> {
    if xs == [] then None else merge(Traverse(visit, merge, xs[0]), Fold(visit, merge, xs[1..]))
  }

  /** `mergeResults` is associative with `undefined` as its unit. */
  ghost predicate Monoid<R(!new)>(merge: Merge<R>) {
    && (forall a, b, c :: merge(merge(a, b), c) == merge(a, merge(b, c)))
    && (forall a :: merge(None, a) == a && merge(a, None) == a)
  }

  lemma {:induction false} FlattenConcat(a: seq<Val>, b: seq<Val>)
    ensures Flatten(a + b) == Flatten(a) + Flatten(b)
    decreases |a|
  {
    if a != [] {
      assert (a + b)[1..] == a[1..] + b;
      FlattenConcat(a[1..], b);
    } else {
      assert a + b == b;
    }
  }

  lemma ReverseConcat<T>(p: seq<T>, q: seq<T>)
    ensures Reverse(p + q) == Reverse(q) + Reverse(p)
  {
  }

  lemma {:induction false} FoldConcat<R(!new)>(visit: map<string, Handler<R>>, merge: Merge<R>, p: seq<Val>, q: seq<Val>)
    requires Monoid(merge)
    ensures Fold(visit, merge, p + q) == merge(Fold(visit, merge, p), Fold(visit, merge, q))
    decreases |p|
  {
    if p == [] {
      assert p + q == q;
    } else {
      assert (p + q)[1..] == p[1..] + q;
      FoldConcat(visit, merge, p[1..], q);
    }
  }

  /**
   * When `mergeResults` is associative with `undefined` as unit, and no
   * argument is `undefined`, `traverseAll` folds the results of the
   * flattened arguments from the LAST to the first.
   */
  lemma {:induction false} TraverseAllFolds<R(!new)>(visit: map<string, Handler<R>>, merge: Merge<R>, args: seq<Val>)
    requires Monoid(merge)
    requires forall i :: 0 <= i < |args| ==> Defined(args[i])
    ensures TraverseAll(visit, merge, args) == Fold(visit, merge, Reverse(Flatten(args)))
    decreases Depth(Arr(args)), |args|, 1
  {
    if |args| == 1 {
      SingleFolds(visit, merge, args);
    } else if |args| > 1 {
      ManyFold(visit, merge, args);
    }
  }

  lemma {:induction false} SingleFolds<R(!new)>(visit: map<string, Handler<R>>, merge: Merge<R>, args: seq<Val>)
    requires Monoid(merge) && |args| == 1 && Defined(args[0])
    ensures TraverseAll(visit, merge, args) == Fold(visit, merge, Reverse(Flatten(args)))
    decreases Depth(Arr(args)), |args|, 0
  {
    var first := args[0];
    DepthAllBounds(args);
    assert Flatten(args) == Spread(first) + Flatten([]);
    assert Spread(first) + [] == Spread(first);
    if first.Arr? {
      TraverseAllFolds(visit, merge, first.items);
    } else {
      assert Reverse([first]) == [first];
    }
  }

  lemma {:induction false} ManyFold<R(!new)>(visit: map<string, Handler<R>>, merge: Merge<R>, args: seq<Val>)
    requires Monoid(merge) && |args| > 1
    requires forall i :: 0 <= i < |args| ==> Defined(args[i])
    ensures TraverseAll(visit, merge, args) == Fold(visit, merge, Reverse(Flatten(args)))
    decreases Depth(Arr(args)), |args|, 0
  {
    var first := args[|args| - 1];
    var init := args[..|args| - 1];
    DepthAllBounds(args);
    DepthAllBelow([first], DepthAll(args));
    DepthAllBounds(init);
    DepthAllBelow(init, DepthAll(args));
    TraverseAllFolds(visit, merge, [first]);
    TraverseAllFolds(visit, merge, init);
    ReversedSplit(args);
    FoldConcat(visit, merge, Reverse(Flatten([first])), Reverse(Flatten(init)));
  }

  /** Reversed, the flattened arguments start with the flattened last argument. */
  lemma ReversedSplit(args: seq<Val>)
    requires args != []
    ensures Reverse(Flatten(args)) ==
      Reverse(Flatten([args[|args| - 1]])) + Reverse(Flatten(args[..|args| - 1]))
  {
    var init := args[..|args| - 1];
    var first := args[|args| - 1];
    assert args == init + [first];
    FlattenConcat(init, [first]);
    ReverseConcat(Flatten(init), Flatten([first]));
  }
}
