/**
 * The scope tree of the binding analysis (`Environment` in
 * bindinganalyzer.js and contexthighlighting.js), stored as an arena: a
 * sequence of environments in which each parent link is the index of an
 * earlier environment, so every parent chain ends at a parentless root.
 */
module Scopes {
  import opened Base
  import opened Ast

  /** The occurrences recorded for one name in one environment. */
  datatype Record = Record(bindingInstances: seq<NodeId>, boundInstances: seq<NodeId>)

  /** `{ bindingInstances: [], boundInstances: [] }` */
  const Fresh := Record([], [])

  /** One `Environment`: the node that created it, its parent and its name map. */
  datatype Env = Env(scope: NodeId, parent: Option<EnvId>, bindings: map<string, Record>)

  type Envs = seq<Env>

  /** Every parent link points to an earlier environment. */
  predicate Valid(envs: Envs) {
    forall i :: 0 <= i < |envs| && envs[i].parent.Some? ==> envs[i].parent.value < i
  }

  /** The record for `name`, or an empty one when the name is not there yet. */
  function Lookup(env: Env, name: string): Record {
    if name in env.bindings then env.bindings[name] else Fresh
  }

  /** `new Environment(scope, parent)` appended to the arena. */
  function NewEnv(envs: Envs, scope: NodeId, parent: Option<EnvId>): (r: Envs)
    requires Valid(envs)
    requires parent.Some? ==> parent.value < |envs|
    ensures Valid(r)
    ensures r == envs + [Env(scope, parent, map[])]
  {
    envs + [Env(scope, parent, map[])]
  }

  /** Appends `inst` to the declaring (or referencing) occurrences of `name` in `e`. */
  function Append(envs: Envs, e: EnvId, name: string, inst: NodeId, declaring: bool): Envs
    requires e < |envs|
  {
    var prev := Lookup(envs[e], name);
    var rec := if declaring then Record(prev.bindingInstances + [inst], prev.boundInstances)
               else Record(prev.bindingInstances, prev.boundInstances + [inst]);
    envs[e := envs[e].(bindings := envs[e].bindings[name := rec])]
  }

  /**
   * `addBindingInstance`: creates the record on first use and appends
   * `inst` to its declaring occurrences; nothing else changes.
   */
  function AddBindingInstance(envs: Envs, e: EnvId, name: string, inst: NodeId): (r: Envs)
    requires e < |envs|
    ensures |r| == |envs|
    ensures forall i :: 0 <= i < |envs| && i != e ==> r[i] == envs[i]
    ensures r[e].scope == envs[e].scope && r[e].parent == envs[e].parent
    ensures r[e].bindings.Keys == envs[e].bindings.Keys + {name}
    ensures forall x :: x in envs[e].bindings && x != name ==> r[e].bindings[x] == envs[e].bindings[x]
    ensures r[e].bindings[name].bindingInstances == Lookup(envs[e], name).bindingInstances + [inst]
    ensures r[e].bindings[name].boundInstances == Lookup(envs[e], name).boundInstances
  {
    Append(envs, e, name, inst, true)
  }

  /**
   * `addBoundInstance`: creates the record on first use and appends `inst`
   * to its referencing occurrences; nothing else changes.
   */
  function AddBoundInstance(envs: Envs, e: EnvId, name: string, inst: NodeId): (r: Envs)
    requires e < |envs|
    ensures |r| == |envs|
    ensures forall i :: 0 <= i < |envs| && i != e ==> r[i] == envs[i]
    ensures r[e].scope == envs[e].scope && r[e].parent == envs[e].parent
    ensures r[e].bindings.Keys == envs[e].bindings.Keys + {name}
    ensures forall x :: x in envs[e].bindings && x != name ==> r[e].bindings[x] == envs[e].bindings[x]
    ensures r[e].bindings[name].bindingInstances == Lookup(envs[e], name).bindingInstances
    ensures r[e].bindings[name].boundInstances == Lookup(envs[e], name).boundInstances + [inst]
  {
    Append(envs, e, name, inst, false)
  }

  /** The environments from `e` up to the root, `e` first. */
  function Chain(envs: Envs, e: EnvId): (c: seq<EnvId>)
    requires Valid(envs) && e < |envs|
    ensures |c| > 0 && c[0] == e
    ensures forall k :: 0 <= k < |c| ==> c[k] < |envs|
    ensures forall k :: 0 <= k < |c| - 1 ==> envs[c[k]].parent == Some(c[k + 1])
    ensures envs[c[|c| - 1]].parent.None?
    decreases e
  {
    match envs[e].parent
    case None => [e]
    case Some(p) => [e] + Chain(envs, p)
  }

  /** The root every lookup from `e` ends at. */
  function Root(envs: Envs, e: EnvId): EnvId
    requires Valid(envs) && e < |envs|
  {
    var c := Chain(envs, e);
    c[|c| - 1]
  }

  /** `level()`: 0 for a parentless environment, one more than the parent's otherwise. */
  function Level(envs: Envs, e: EnvId): nat
    requires Valid(envs) && e < |envs|
    decreases e
  {
    match envs[e].parent
    case None => 0
    case Some(p) => Level(envs, p) + 1
  }

  /** The level is the number of parent hops from `e` to the root. */
  lemma {:induction false} LevelCountsHops(envs: Envs, e: EnvId)
    requires Valid(envs) && e < |envs|
    ensures Level(envs, e) == |Chain(envs, e)| - 1
    ensures Level(envs, e) == 0 <==> envs[e].parent.None?
    decreases e
  {
    match envs[e].parent
    case None =>
    case Some(p) => LevelCountsHops(envs, p);
  }

  /** No environment among the first `k` of the chain declares `name`. */
  predicate MissingBefore(envs: Envs, c: seq<EnvId>, k: int, name: string)
    requires forall j :: 0 <= j < |c| ==> c[j] < |envs|
    requires k <= |c|
  {
    forall j :: 0 <= j < k ==> name !in envs[c[j]].bindings
  }

  /**
   * `findBindingEnv`: the nearest environment on the chain from `e`
   * (itself first) that has `name`; when none has it, the root gets a fresh
   * empty record for `name` and is returned, so the lookup never fails.
   */
  function FindBindingEnv(envs: Envs, e: EnvId, name: string): (r: (Envs, EnvId))
    requires Valid(envs) && e < |envs|
    ensures Valid(r.0) && |r.0| == |envs| && r.1 < |envs|
    ensures name in r.0[r.1].bindings
    decreases e
  {
    if name in envs[e].bindings then (envs, e)
    else
      match envs[e].parent
      case Some(p) => FindBindingEnv(envs, p, name)
      case None => (envs[e := envs[e].(bindings := envs[e].bindings[name := Fresh])], e)
  }

  /** `h` sits at position `k` of the chain and no earlier position has `name`. */
  predicate NearestAt(envs: Envs, c: seq<EnvId>, k: int, h: EnvId, name: string)
    requires forall j :: 0 <= j < |c| ==> c[j] < |envs|
  {
    0 <= k < |c| && c[k] == h && MissingBefore(envs, c, k, name)
  }

  /** The environment found is the first one on the chain that has the name. */
  lemma {:induction false} FindIsNearest(envs: Envs, e: EnvId, name: string)
    requires Valid(envs) && e < |envs|
    ensures exists k :: NearestAt(envs, Chain(envs, e), k, FindBindingEnv(envs, e, name).1, name)
    decreases e
  {
    var h := FindBindingEnv(envs, e, name).1;
    var c := Chain(envs, e);
    if name in envs[e].bindings || envs[e].parent.None? {
      assert NearestAt(envs, c, 0, h, name);
    } else {
      var p := envs[e].parent.value;
      FindIsNearest(envs, p, name);
      var cp := Chain(envs, p);
      assert c == [e] + cp;
      var k' :| NearestAt(envs, cp, k', h, name);
      assert NearestAt(envs, c, k' + 1, h, name);
    }
  }

  /** When some environment on the chain has the name, the lookup changes nothing. */
  lemma {:induction false} FindKeepsArena(envs: Envs, e: EnvId, name: string)
    requires Valid(envs) && e < |envs|
    requires exists k :: 0 <= k < |Chain(envs, e)| && name in envs[Chain(envs, e)[k]].bindings
    ensures FindBindingEnv(envs, e, name).0 == envs
    decreases e
  {
    var c := Chain(envs, e);
    if name !in envs[e].bindings {
      var k :| 0 <= k < |c| && name in envs[c[k]].bindings;
      assert k != 0;
      var p := envs[e].parent.value;
      assert c == [e] + Chain(envs, p);
      assert name in envs[Chain(envs, p)[k - 1]].bindings;
      FindKeepsArena(envs, p, name);
    }
  }

  /**
   * When no environment on the chain has the name, the root is returned and
   * the only change is a fresh empty record for the name at the root.
   */
  lemma {:induction false} FindCreatesAtRoot(envs: Envs, e: EnvId, name: string)
    requires Valid(envs) && e < |envs|
    requires MissingBefore(envs, Chain(envs, e), |Chain(envs, e)|, name)
    ensures var r := FindBindingEnv(envs, e, name);
      && r.1 == Root(envs, e)
      && r.0 == envs[r.1 := envs[r.1].(bindings := envs[r.1].bindings[name := Fresh])]
    decreases e
  {
    var c := Chain(envs, e);
    assert name !in envs[c[0]].bindings;
    if envs[e].parent.Some? {
      var p := envs[e].parent.value;
      assert c == [e] + Chain(envs, p);
      assert MissingBefore(envs, Chain(envs, p), |Chain(envs, p)|, name) by {
        forall j | 0 <= j < |Chain(envs, p)| ensures name !in envs[Chain(envs, p)[j]].bindings {
          assert Chain(envs, p)[j] == c[j + 1];
        }
      }
      FindCreatesAtRoot(envs, p, name);
    }
  }

  /** Every record of `a` survives in `b` with both lists extended at the end only. */
  predicate RecordGrows(a: Record, b: Record) {
    && a.bindingInstances <= b.bindingInstances
    && a.boundInstances <= b.boundInstances
  }

  /**
   * `b` is `a` after more analysis: environments are only appended, their
   * scope and parent never change, names are never removed and every
   * record only grows at the end.
   */
  predicate Grows(a: Envs, b: Envs) {
    && |a| <= |b|
    && forall i :: 0 <= i < |a| ==>
         && b[i].scope == a[i].scope
         && b[i].parent == a[i].parent
         && a[i].bindings.Keys <= b[i].bindings.Keys
         && forall x :: x in a[i].bindings ==> RecordGrows(a[i].bindings[x], b[i].bindings[x])
  }

  lemma GrowsTransitive(a: Envs, b: Envs, c: Envs)
    requires Grows(a, b) && Grows(b, c)
    ensures Grows(a, c)
  {
    forall i | 0 <= i < |a|
      ensures forall x :: x in a[i].bindings ==> RecordGrows(a[i].bindings[x], c[i].bindings[x])
    {
      forall x | x in a[i].bindings
        ensures RecordGrows(a[i].bindings[x], c[i].bindings[x])
      {
        assert RecordGrows(b[i].bindings[x], c[i].bindings[x]);
      }
    }
  }

  /** Adding an instance, looking a name up or opening a scope only grows the arena. */
  lemma AddGrows(envs: Envs, e: EnvId, name: string, inst: NodeId, declaring: bool)
    requires e < |envs|
    ensures Grows(envs, Append(envs, e, name, inst, declaring))
  {
  }

  lemma FindGrows(envs: Envs, e: EnvId, name: string)
    requires Valid(envs) && e < |envs|
    ensures Grows(envs, FindBindingEnv(envs, e, name).0)
    decreases e
  {
    if name !in envs[e].bindings && envs[e].parent.Some? {
      FindGrows(envs, envs[e].parent.value, name);
    }
  }

  lemma NewEnvGrows(envs: Envs, scope: NodeId, parent: Option<EnvId>)
    requires Valid(envs)
    requires parent.Some? ==> parent.value < |envs|
    ensures Grows(envs, NewEnv(envs, scope, parent))
  {
  }

  /** A declaration: the name and the declaring node. */
  type Decl = (string, NodeId)

  /** `env` after one more declaring occurrence of `d.0`, appended at the end. */
  function WithDecl(env: Env, d: Decl): Env {
    var prev := Lookup(env, d.0);
    env.(bindings := env.bindings[d.0 := Record(prev.bindingInstances + [d.1], prev.boundInstances)])
  }

  /** `env` after the declarations `ds`, in order. */
  function WithDecls(env: Env, ds: seq<Decl>): Env
    decreases |ds|
  {
    if ds == [] then env else WithDecls(WithDecl(env, ds[0]), ds[1..])
  }

  lemma {:induction false} WithDeclsAppend(env: Env, a: seq<Decl>, b: seq<Decl>)
    ensures WithDecls(env, a + b) == WithDecls(WithDecls(env, a), b)
    decreases |a|
  {
    if a != [] {
      assert (a + b)[1..] == a[1..] + b;
      WithDeclsAppend(WithDecl(env, a[0]), a[1..], b);
    } else {
      assert a + b == b;
    }
  }

  /** `addBindingInstance` performs exactly one declaration on its environment. */
  lemma AddIsWithDecl(envs: Envs, e: EnvId, name: string, inst: NodeId)
    requires e < |envs|
    ensures AddBindingInstance(envs, e, name, inst)[e] == WithDecl(envs[e], (name, inst))
  {
  }

  /** Two arenas hold the same declarations: only referencing occurrences may differ. */
  ghost predicate SameDecls(a: Envs, b: Envs) {
    && |a| == |b|
    && forall i, x :: 0 <= i < |a| ==> Lookup(a[i], x).bindingInstances == Lookup(b[i], x).bindingInstances
  }

  /** Looking a name up declares nothing, even when it creates the record at the root. */
  lemma {:induction false} FindKeepsDecls(envs: Envs, e: EnvId, name: string)
    requires Valid(envs) && e < |envs|
    ensures SameDecls(envs, FindBindingEnv(envs, e, name).0)
    decreases e
  {
    if name !in envs[e].bindings && envs[e].parent.Some? {
      FindKeepsDecls(envs, envs[e].parent.value, name);
    }
  }

  /** Every referencing occurrence recorded anywhere in the arena. */
  function References(envs: Envs): set<NodeId> {
    set i, x, u | 0 <= i < |envs| && x in envs[i].bindings && u in envs[i].bindings[x].boundInstances :: u
  }

  /** A lookup records no reference. */
  lemma {:induction false} FindKeepsReferences(envs: Envs, e: EnvId, name: string)
    requires Valid(envs) && e < |envs|
    ensures References(FindBindingEnv(envs, e, name).0) == References(envs)
    decreases e
  {
    if name !in envs[e].bindings {
      match envs[e].parent
      case Some(p) => FindKeepsReferences(envs, p, name);
      case None =>
        var r := FindBindingEnv(envs, e, name).0;
        forall u | u in References(r) ensures u in References(envs) {
          var i, x :| 0 <= i < |r| && x in r[i].bindings && u in r[i].bindings[x].boundInstances;
          assert !(i == e && x == name);
        }
        forall u | u in References(envs) ensures u in References(r) {
          var i, x :| 0 <= i < |envs| && x in envs[i].bindings && u in envs[i].bindings[x].boundInstances;
          assert x in r[i].bindings && u in r[i].bindings[x].boundInstances;
        }
    }
  }

  /** `addBoundInstance` records exactly one more reference. */
  lemma AddBoundReferences(envs: Envs, e: EnvId, name: string, inst: NodeId)
    requires e < |envs|
    ensures References(AddBoundInstance(envs, e, name, inst)) == References(envs) + {inst}
  {
    var r := AddBoundInstance(envs, e, name, inst);
    forall u | u in References(r) ensures u in References(envs) + {inst} {
      var i, x :| 0 <= i < |r| && x in r[i].bindings && u in r[i].bindings[x].boundInstances;
      if i == e && x == name && u != inst {
        assert u in Lookup(envs[e], name).boundInstances;
        assert name in envs[e].bindings;
      }
    }
    forall u | u in References(envs) + {inst} ensures u in References(r) {
      if u == inst {
        assert u in r[e].bindings[name].boundInstances;
      } else {
        var i, x :| 0 <= i < |envs| && x in envs[i].bindings && u in envs[i].bindings[x].boundInstances;
        if i == e && x == name {
          assert u in r[e].bindings[name].boundInstances;
        } else {
          assert u in r[i].bindings[x].boundInstances;
        }
      }
    }
  }

  lemma SameDeclsTransitive(a: Envs, b: Envs, c: Envs)
    requires SameDecls(a, b) && SameDecls(b, c)
    ensures SameDecls(a, c)
  {
  }

  /** `addBoundInstance` declares nothing. */
  lemma AddBoundKeepsDecls(envs: Envs, e: EnvId, name: string, inst: NodeId)
    requires e < |envs|
    ensures SameDecls(envs, AddBoundInstance(envs, e, name, inst))
  {
  }

  /** An occurrence recorded in a record stays recorded as the arena grows. */
  lemma RecordedGrows(a: Envs, b: Envs, h: EnvId, name: string, u: NodeId)
    requires Grows(a, b) && h < |a| && name in a[h].bindings && u in a[h].bindings[name].boundInstances
    ensures name in b[h].bindings && u in b[h].bindings[name].boundInstances
  {
    var s := a[h].bindings[name].boundInstances;
    var k :| 0 <= k < |s| && s[k] == u;
    assert b[h].bindings[name].boundInstances[k] == u;
  }

  lemma NoReferencesInEmptyScope(scope: NodeId, parent: Option<EnvId>)
    ensures References([Env(scope, parent, map[])]) == {}
  {
  }

  /** `addBindingInstance` records no reference. */
  lemma AddBindingKeepsReferences(envs: Envs, e: EnvId, name: string, inst: NodeId)
    requires e < |envs|
    ensures References(AddBindingInstance(envs, e, name, inst)) == References(envs)
  {
    var r := AddBindingInstance(envs, e, name, inst);
    forall u | u in References(r) ensures u in References(envs) {
      var i, x :| 0 <= i < |r| && x in r[i].bindings && u in r[i].bindings[x].boundInstances;
      if i == e && x == name {
        assert name in envs[e].bindings;
      }
    }
    forall u | u in References(envs) ensures u in References(r) {
      var i, x :| 0 <= i < |envs| && x in envs[i].bindings && u in envs[i].bindings[x].boundInstances;
      assert u in r[i].bindings[x].boundInstances;
    }
  }

  /** A new scope records no reference. */
  lemma NewEnvKeepsReferences(envs: Envs, scope: NodeId, parent: Option<EnvId>)
    requires Valid(envs)
    requires parent.Some? ==> parent.value < |envs|
    ensures References(NewEnv(envs, scope, parent)) == References(envs)
  {
    var r := NewEnv(envs, scope, parent);
    forall u | u in References(r) ensures u in References(envs) {
      var i, x :| 0 <= i < |r| && x in r[i].bindings && u in r[i].bindings[x].boundInstances;
      assert i < |envs|;
    }
    forall u | u in References(envs) ensures u in References(r) {
      var i, x :| 0 <= i < |envs| && x in envs[i].bindings && u in envs[i].bindings[x].boundInstances;
      assert r[i] == envs[i];
    }
  }

  /*
   * Which scope a reference belongs to.
   */

  /**
   * `h` is the scope a reference to `name` made from `e` belongs to: the
   * first scope on the chain from `e` that has the name, or the root of
   * the chain when none has it.
   */
  predicate NearestScope(envs: Envs, e: EnvId, name: string, h: EnvId)
    requires Valid(envs) && e < |envs|
  {
    && h < |envs|
    && (exists k :: 0 <= k < |Chain(envs, e)| && NearestAt(envs, Chain(envs, e), k, h, name))
    && (name in envs[h].bindings || h == Root(envs, e))
  }

  /** At most one scope is the nearest one. */
  lemma NearestScopeUnique(envs: Envs, e: EnvId, name: string, h1: EnvId, h2: EnvId)
    requires Valid(envs) && e < |envs|
    requires NearestScope(envs, e, name, h1) && NearestScope(envs, e, name, h2)
    ensures h1 == h2
  {
    var c := Chain(envs, e);
    var k1 :| 0 <= k1 < |c| && NearestAt(envs, c, k1, h1, name);
    var k2 :| 0 <= k2 < |c| && NearestAt(envs, c, k2, h2, name);
    if k1 < k2 {
      assert name !in envs[c[k1]].bindings;
      RootIsLast(envs, e, k1);
    } else if k2 < k1 {
      assert name !in envs[c[k2]].bindings;
      RootIsLast(envs, e, k2);
    }
  }

  /** The root is the last scope of the chain and no earlier scope of the chain. */
  lemma RootIsLast(envs: Envs, e: EnvId, k: int)
    requires Valid(envs) && e < |envs|
    requires 0 <= k < |Chain(envs, e)| - 1
    ensures Chain(envs, e)[k] != Root(envs, e)
  {
    var c := Chain(envs, e);
    assert envs[c[k]].parent.Some?;
  }

  /** `findBindingEnv` returns the nearest scope. */
  lemma FindIsNearestScope(envs: Envs, e: EnvId, name: string)
    requires Valid(envs) && e < |envs|
    ensures NearestScope(envs, e, name, FindBindingEnv(envs, e, name).1)
  {
    FindIsNearest(envs, e, name);
    var c := Chain(envs, e);
    if exists k :: 0 <= k < |c| && name in envs[c[k]].bindings {
      FindKeepsArena(envs, e, name);
    } else {
      FindCreatesAtRoot(envs, e, name);
    }
  }

  /**
   * Apart from `this` (which pass 2 records in whatever scope it occurs in),
   * only roots gain names from `a` to `b`: every other scope keeps the
   * names it had.
   */
  predicate NamesFixedBelowRoot(a: Envs, b: Envs) {
    && |a| == |b|
    && forall i :: 0 <= i < |a| && a[i].parent.Some? ==>
         b[i].bindings.Keys - {"this"} == a[i].bindings.Keys - {"this"}
  }

  lemma NamesFixedTransitive(a: Envs, b: Envs, c: Envs)
    requires Grows(a, b) && NamesFixedBelowRoot(a, b) && NamesFixedBelowRoot(b, c)
    ensures NamesFixedBelowRoot(a, c)
  {
  }

  /** A lookup followed by recording the reference in the scope found adds names at the root only. */
  lemma {:induction false} FindThenAddFixesNames(envs: Envs, e: EnvId, name: string, inst: NodeId)
    requires Valid(envs) && e < |envs|
    ensures var r := FindBindingEnv(envs, e, name);
      NamesFixedBelowRoot(envs, AddBoundInstance(r.0, r.1, name, inst))
    decreases e
  {
    if name !in envs[e].bindings && envs[e].parent.Some? {
      FindThenAddFixesNames(envs, envs[e].parent.value, name, inst);
    }
  }

  /** Recording `this` in a scope changes no name other than `this`. */
  lemma AddThisFixesNames(envs: Envs, e: EnvId, inst: NodeId)
    requires e < |envs|
    ensures NamesFixedBelowRoot(envs, AddBoundInstance(envs, e, "this", inst))
  {
  }

  /**
   * Looking a name other than `this` up in an arena that has only grown at
   * its roots finds the same scope as before.
   */
  lemma {:induction false} FindSameScope(a: Envs, b: Envs, e: EnvId, name: string)
    requires Valid(a) && Valid(b) && e < |a| && name != "this"
    requires Grows(a, b) && NamesFixedBelowRoot(a, b)
    ensures FindBindingEnv(b, e, name).1 == FindBindingEnv(a, e, name).1
    decreases e
  {
    if a[e].parent.Some? {
      assert name in b[e].bindings <==> name in a[e].bindings by {
        assert name in b[e].bindings.Keys - {"this"} <==> name in a[e].bindings.Keys - {"this"};
      }
      if name !in a[e].bindings {
        FindSameScope(a, b, a[e].parent.value, name);
      }
    }
  }
}
