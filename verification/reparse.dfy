/**
 * The editor's incremental reparse: how long an edit is, which function an
 * edit falls into, which text is sent to the parser for that function, and
 * how the re-parsed function is put back into the old tree with every later
 * position moved by the edit's length.
 */
module Reparse {
  import opened Base
  import opened Ast

  // ---------------------------------------------------------------------
  // Change length (calculateChangeLength)
  // ---------------------------------------------------------------------

  /**
   * An editor change: the inserted lines, the removed lines and, for a
   * batched edit, the next change of the batch.
   */
  datatype Change = Change(text: seq<string>, removed: seq<string>, next: Option<Change>)

  /** `lines.join(sep)`. */
  function Join(lines: seq<string>, sep: string): string {
    if |lines| == 0 then ""
    else if |lines| == 1 then lines[0]
    else lines[0] + sep + Join(lines[1..], sep)
  }

  /** Sum of the lengths of the lines. */
  function Chars(lines: seq<string>): nat {
    if lines == [] then 0 else |lines[0]| + Chars(lines[1..])
  }

  /** Number of characters a list of lines occupies in the document, newlines included. */
  function Span(lines: seq<string>): nat {
    if lines == [] then 0 else Chars(lines) + |lines| - 1
  }

  /** Joining with a one-character separator adds one character per gap between lines. */
  lemma {:induction false} JoinLength(lines: seq<string>)
    ensures |Join(lines, "\n")| == Span(lines)
  {
    if |lines| == 1 {
      assert lines[1..] == [];
    } else if |lines| > 1 {
      JoinLength(lines[1..]);
    }
  }

  /** The change of document length caused by an edit and all edits batched after it. */
  function ChangeLength(c: Change): int
    decreases c
  {
    var length := |Join(c.text, "\n")| - |Join(c.removed, "\n")|;
    if c.next.Some? then length + ChangeLength(c.next.value) else length
  }

  /** The batch a change starts, in order. */
  function Batch(c: Change): (r: seq<Change>)
    ensures |r| > 0 && r[0] == c
    decreases c
  {
    [c] + (if c.next.Some? then Batch(c.next.value) else [])
  }

  /** Net characters inserted by a list of changes, each counted on its own. */
  function NetInserted(cs: seq<Change>): int {
    if cs == [] then 0 else Span(cs[0].text) - Span(cs[0].removed) + NetInserted(cs[1..])
  }

  /** The length of an edit is the inserted span minus the removed span, summed over its batch. */
  lemma {:induction false} ChangeLengthSumsBatch(c: Change)
    ensures ChangeLength(c) == NetInserted(Batch(c))
    decreases c
  {
    JoinLength(c.text);
    JoinLength(c.removed);
    var b := Batch(c);
    assert b[1..] == (if c.next.Some? then Batch(c.next.value) else []);
    if c.next.Some? {
      ChangeLengthSumsBatch(c.next.value);
    }
  }

  // ---------------------------------------------------------------------
  // The function an edit falls into (findPathToPos)
  // ---------------------------------------------------------------------

  /** A function whose range contains the position. */
  predicate Encloses(n: Node, pos: int) {
    IsFunction(n) && Contains(n.info.range, pos)
  }

  /**
   * The walk of findPathToPos over the pre-order listing: it stops at the
   * first node that starts after the position and remembers the last
   * enclosing function it passed.
   */
  function Scan(ns: seq<Node>, pos: int, found: Option<Node>): Option<Node> {
    if ns == [] then found
    else if ns[0].Start() > pos then found
    else Scan(ns[1..], pos, if Encloses(ns[0], pos) then Some(ns[0]) else found)
  }

  /** `findPathToPos`: the function found for an edit at `pos`; no tree yet finds nothing. */
  function FindPathToPos(pos: int, ast: Option<Node>): (r: Option<Node>)
    ensures r.Some? ==> ast.Some? && Encloses(r.value, pos) && r.value in PreOrder(ast.value)
  {
    if ast.None? then None
    else
      ScanSound(PreOrder(ast.value), pos, None);
      Scan(PreOrder(ast.value), pos, None)
  }

  lemma {:induction false} ScanSound(ns: seq<Node>, pos: int, found: Option<Node>)
    requires found.Some? ==> Encloses(found.value, pos)
    ensures var r := Scan(ns, pos, found);
            r.Some? ==> Encloses(r.value, pos) && (r.value in ns || r == found)
  {
    if ns != [] && ns[0].Start() <= pos {
      ScanSound(ns[1..], pos, if Encloses(ns[0], pos) then Some(ns[0]) else found);
    }
  }

  /**
   * Reference definition: the index of the last enclosing function of a
   * listing, or -1 when there is none.
   */
  function LastEnclosing(ns: seq<Node>, pos: int): (r: int)
    ensures -1 <= r < |ns|
    ensures r >= 0 ==> Encloses(ns[r], pos)
    ensures forall k :: r < k < |ns| ==> !Encloses(ns[k], pos)
  {
    if ns == [] then -1
    else if Encloses(ns[|ns| - 1], pos) then |ns| - 1
    else LastEnclosing(ns[..|ns| - 1], pos)
  }

  /** Starts never decrease along the listing, and two ranges are nested or disjoint. */
  predicate Laminar(ns: seq<Node>) {
    forall i, j :: 0 <= i < j < |ns| ==>
      && ns[i].Start() <= ns[j].Start()
      && (ns[j].End() <= ns[i].End() || ns[i].End() <= ns[j].Start())
  }

  /** Every range of the listing is well formed and lies inside `[lo, hi)`. */
  predicate Within(ns: seq<Node>, lo: int, hi: int) {
    forall i :: 0 <= i < |ns| ==> lo <= ns[i].Start() <= ns[i].End() <= hi
  }

  lemma LaminarConcat(a: seq<Node>, b: seq<Node>, lo: int, mid: int, hi: int)
    requires Laminar(a) && Laminar(b) && Within(a, lo, mid) && Within(b, mid, hi) && lo <= mid <= hi
    ensures Laminar(a + b) && Within(a + b, lo, hi)
  {
    var s := a + b;
    forall i, j | 0 <= i < j < |s|
      ensures s[i].Start() <= s[j].Start()
      ensures s[j].End() <= s[i].End() || s[i].End() <= s[j].Start()
    {
      if j >= |a| && i < |a| {
        assert s[i] == a[i] && s[j] == b[j - |a|];
      } else if i >= |a| {
        assert s[i] == b[i - |a|] && s[j] == b[j - |a|];
      }
    }
    forall i | 0 <= i < |s| ensures lo <= s[i].Start() <= s[i].End() <= hi {
      if i >= |a| { assert s[i] == b[i - |a|]; } else { assert s[i] == a[i]; }
    }
  }

  lemma LaminarCons(n: Node, s: seq<Node>)
    requires n.Start() <= n.End() && Laminar(s) && Within(s, n.Start(), n.End())
    ensures Laminar([n] + s) && Within([n] + s, n.Start(), n.End())
  {
    var t := [n] + s;
    forall i, j | 0 <= i < j < |t|
      ensures t[i].Start() <= t[j].Start()
      ensures t[j].End() <= t[i].End() || t[i].End() <= t[j].Start()
    {
      if i > 0 {
        assert t[i] == s[i - 1] && t[j] == s[j - 1];
      }
    }
  }

  /** The pre-order listing of a properly nested tree is laminar and lies inside the root. */
  lemma {:induction false} PreOrderLaminar(n: Node)
    requires Nested(n)
    ensures Laminar(PreOrder(n)) && Within(PreOrder(n), n.Start(), n.End())
    decreases n, 1
  {
    PreOrderAllLaminar(Children(n), n, n.Start(), n.End());
    LaminarCons(n, PreOrderAll(Children(n), n));
  }

  lemma {:induction false} PreOrderAllLaminar(cs: seq<Node>, bound: Node, lo: int, hi: int)
    requires forall i :: 0 <= i < |cs| ==> cs[i] < bound
    requires forall i :: 0 <= i < |cs| ==> Nested(cs[i]) && lo <= cs[i].Start() && cs[i].End() <= hi
    requires forall i, k :: 0 <= i < k < |cs| ==> cs[i].End() <= cs[k].Start()
    requires lo <= hi
    ensures Laminar(PreOrderAll(cs, bound)) && Within(PreOrderAll(cs, bound), lo, hi)
    decreases bound, 0, |cs|
  {
    if cs != [] {
      PreOrderLaminar(cs[0]);
      assert cs[0].Start() <= cs[0].End() by { assert Nested(cs[0]); }
      forall i | 0 <= i < |cs[1..]|
        ensures Nested(cs[1..][i]) && cs[0].End() <= cs[1..][i].Start() && cs[1..][i].End() <= hi
      {
        assert cs[1..][i] == cs[i + 1];
      }
      PreOrderAllLaminar(cs[1..], bound, cs[0].End(), hi);
      LaminarConcat(PreOrder(cs[0]), PreOrderAll(cs[1..], bound), lo, cs[0].End(), hi);
    }
  }

  /** Pick the remembered function of a later part of the walk, or else the earlier one. */
  function Latest(later: Option<Node>, earlier: Option<Node>): Option<Node> {
    if later.Some? then later else earlier
  }

  function AsOption(ns: seq<Node>, i: int): Option<Node>
    requires -1 <= i < |ns|
  {
    if i < 0 then None else Some(ns[i])
  }

  lemma {:induction false} LastEnclosingCons(n: Node, s: seq<Node>, pos: int)
    ensures AsOption([n] + s, LastEnclosing([n] + s, pos))
         == Latest(AsOption(s, LastEnclosing(s, pos)), if Encloses(n, pos) then Some(n) else None)
  {
    var t := [n] + s;
    var r := LastEnclosing(t, pos);
    var q := LastEnclosing(s, pos);
    if q >= 0 {
      assert t[q + 1] == s[q];
      assert forall k :: 1 <= k < |t| ==> t[k] == s[k - 1];
    } else {
      forall k | 1 <= k < |t| ensures !Encloses(t[k], pos) { assert t[k] == s[k - 1]; }
      assert r <= 0;
      assert t[0] == n;
    }
  }

  /** On a listing whose starts never decrease, the walk finds the last enclosing function. */
  lemma {:induction false} ScanFindsLast(ns: seq<Node>, pos: int, found: Option<Node>)
    requires Laminar(ns)
    ensures Scan(ns, pos, found) == Latest(AsOption(ns, LastEnclosing(ns, pos)), found)
  {
    if ns == [] {
    } else if ns[0].Start() > pos {
      NoneEnclosedAfterStart(ns, pos);
    } else {
      var f := if Encloses(ns[0], pos) then Some(ns[0]) else found;
      LaminarTail(ns);
      ScanFindsLast(ns[1..], pos, f);
      assert ns == [ns[0]] + ns[1..];
      LastEnclosingCons(ns[0], ns[1..], pos);
    }
  }

  lemma LaminarTail(ns: seq<Node>)
    requires Laminar(ns) && ns != []
    ensures Laminar(ns[1..])
  {
    forall i, j | 0 <= i < j < |ns[1..]|
      ensures ns[1..][i].Start() <= ns[1..][j].Start()
      ensures ns[1..][j].End() <= ns[1..][i].End() || ns[1..][i].End() <= ns[1..][j].Start()
    {
      assert ns[1..][i] == ns[i + 1] && ns[1..][j] == ns[j + 1];
    }
  }

  /** When the listing starts after the position, nothing in it encloses the position. */
  lemma NoneEnclosedAfterStart(ns: seq<Node>, pos: int)
    requires Laminar(ns) && ns != [] && ns[0].Start() > pos
    ensures LastEnclosing(ns, pos) < 0
  {
    forall k | 0 <= k < |ns| ensures !Encloses(ns[k], pos) {
      if k > 0 { assert ns[0].Start() <= ns[k].Start(); }
    }
  }

  /**
   * On a properly nested tree the function found for an edit is the
   * innermost one around the position: every enclosing function contains it,
   * and nothing is found exactly when no function encloses the position.
   */
  lemma FindPathToPosInnermost(pos: int, ast: Node)
    requires Nested(ast)
    ensures var r := FindPathToPos(pos, Some(ast));
            && (r.None? <==> forall g :: g in PreOrder(ast) ==> !Encloses(g, pos))
            && (r.Some? ==> forall g :: g in PreOrder(ast) && Encloses(g, pos) ==>
                  g.Start() <= r.value.Start() && r.value.End() <= g.End())
  {
    var ns := PreOrder(ast);
    PreOrderLaminar(ast);
    ScanFindsLast(ns, pos, None);
    var j := LastEnclosing(ns, pos);
    forall g | g in ns && Encloses(g, pos)
      ensures j >= 0 && g.Start() <= ns[j].Start() && ns[j].End() <= g.End()
    {
      var i :| 0 <= i < |ns| && ns[i] == g;
      assert i <= j;
      if i < j {
        assert ns[i].Start() <= ns[j].Start();
      }
    }
  }

  // ---------------------------------------------------------------------
  // The text sent to the parser (parsePartial)
  // ---------------------------------------------------------------------

  /**
   * The parse request for an edit inside `context`: the function's text in
   * the edited document (its end moved by the edit length), wrapped in
   * parentheses for a function expression, and the offset `idxCorr` to add
   * to every position the parser reports.
   */
  datatype Request = Request(text: string, idxCorr: int, isExpression: bool)

  function PartialRequest(doc: string, context: Node, posChange: int): (r: Request)
    requires IsFunction(context)
  {
    var start := context.Start();
    var slice := JsSlice(doc, start, context.End() + posChange);
    if context.FunctionExpression? then Request("(" + slice + ")", start - 1, true)
    else Request(slice, start, false)
  }

  /**
   * Positions in the request text map back into the document: every
   * character of the request except the added parentheses is the document
   * character `idxCorr` further on, and the slice is the whole rest of the
   * function when it ends inside the document.
   */
  lemma PartialRequestMapsBack(doc: string, context: Node, posChange: int)
    requires IsFunction(context) && 0 <= context.Start() <= |doc|
    ensures var r := PartialRequest(doc, context, posChange);
            var first := if r.isExpression then 1 else 0;
            && r.isExpression == context.FunctionExpression?
            && |r.text| >= 2 * first
            && (r.isExpression ==> r.text[0] == '(' && r.text[|r.text| - 1] == ')')
            && (forall k :: first <= k < |r.text| - first ==>
                  0 <= k + r.idxCorr < |doc| && r.text[k] == doc[k + r.idxCorr])
            && (context.Start() <= context.End() + posChange <= |doc| ==>
                  |r.text| - 2 * first == context.End() + posChange - context.Start())
  {
    var r := PartialRequest(doc, context, posChange);
    var start := context.Start();
    var slice := JsSlice(doc, start, context.End() + posChange);
    assert SliceIndex(start, |doc|) == start;
    if r.isExpression {
      forall k | 1 <= k < |r.text| - 1
        ensures 0 <= k + r.idxCorr < |doc| && r.text[k] == doc[k + r.idxCorr]
      {
        assert r.text[k] == slice[k - 1];
      }
    }
  }

  // ---------------------------------------------------------------------
  // Moving ranges and clearing the rendered flag
  // ---------------------------------------------------------------------

  /** A node's information with its range moved by `d` and, when `clean`, its rendered flag cleared. */
  function MoveInfo(info: Info, d: int, clean: bool): Info {
    info.(range := Range(info.range.start + d, info.range.end + d), rendered := info.rendered && !clean)
  }

  /**
   * Every node of the tree moved by `d` and, when `clean`, cleaned up. With
   * `clean` false this is the correction of the re-parsed function by
   * `idxCorr`; with `d` zero and `clean` true it is the clean-up of a tree
   * that is no longer displayed.
   */
  function Moved(n: Node, d: int, clean: bool): (r: Node)
    decreases n, 1
  {
    WithChildren(WithInfo(n, MoveInfo(n.info, d, clean)), MovedAll(Children(n), n, d, clean))
  }

  function MovedAll(cs: seq<Node>, ghost bound: Node, d: int, clean: bool): (r: seq<Node>)
    requires forall i :: 0 <= i < |cs| ==> cs[i] < bound
    ensures |r| == |cs|
    decreases bound, 0, |cs|
  {
    if cs == [] then [] else [Moved(cs[0], d, clean)] + MovedAll(cs[1..], bound, d, clean)
  }

  lemma {:induction false} MovedAllAt(cs: seq<Node>, bound: Node, d: int, clean: bool)
    requires forall i :: 0 <= i < |cs| ==> cs[i] < bound
    ensures forall i :: 0 <= i < |cs| ==> MovedAll(cs, bound, d, clean)[i] == Moved(cs[i], d, clean)
  {
    if cs != [] {
      MovedAllAt(cs[1..], bound, d, clean);
    }
  }

  /** What a moved node is made of: the moved information and the moved children. */
  lemma MovedParts(n: Node, d: int, clean: bool)
    ensures Moved(n, d, clean).info == MoveInfo(n.info, d, clean)
    ensures |Children(Moved(n, d, clean))| == |Children(n)|
    ensures forall i :: 0 <= i < |Children(n)| ==>
              Children(Moved(n, d, clean))[i] == Moved(Children(n)[i], d, clean)
  {
    MovedAllAt(Children(n), n, d, clean);
  }

  /** No node of the tree is marked as rendered. */
  predicate NoneRendered(n: Node)
    decreases n
  {
    !n.info.rendered && forall i :: 0 <= i < |Children(n)| ==> NoneRendered(Children(n)[i])
  }

  /** Moving twice is moving by the sum, cleaning when either move cleans. */
  lemma {:induction false} MovedCompose(n: Node, d: int, c: bool, e: int, c2: bool)
    ensures Moved(Moved(n, d, c), e, c2) == Moved(n, d + e, c || c2)
    decreases n
  {
    var cs := Children(n);
    forall i | 0 <= i < |cs| ensures Moved(Moved(cs[i], d, c), e, c2) == Moved(cs[i], d + e, c || c2) {
      MovedCompose(cs[i], d, c, e, c2);
    }
    MovedChildrenCompose(n, d, c, e, c2);
    MovedTwiceTop(n, d, c, e, c2);
  }

  /** `MovedCompose` with the combined offset and flag given by the caller. */
  lemma MovedComposeTo(n: Node, d: int, c: bool, e: int, c2: bool, sum: int, both: bool)
    requires sum == d + e && both == (c || c2)
    ensures Moved(Moved(n, d, c), e, c2) == Moved(n, sum, both)
  {
    MovedCompose(n, d, c, e, c2);
  }

  lemma MovedChildrenCompose(n: Node, d: int, c: bool, e: int, c2: bool)
    requires forall i :: 0 <= i < |Children(n)| ==>
               Moved(Moved(Children(n)[i], d, c), e, c2) == Moved(Children(n)[i], d + e, c || c2)
    ensures MovedAll(Children(Moved(n, d, c)), Moved(n, d, c), e, c2) == MovedAll(Children(n), n, d + e, c || c2)
  {
    var m := Moved(n, d, c);
    MovedParts(n, d, c);
    MovedAllCompose(Children(m), m, Children(n), n, d, c, e, c2);
  }

  lemma MovedAllCompose(ms: seq<Node>, mb: Node, cs: seq<Node>, cb: Node, d: int, c: bool, e: int, c2: bool)
    requires |ms| == |cs|
    requires forall i :: 0 <= i < |ms| ==> ms[i] < mb
    requires forall i :: 0 <= i < |cs| ==> cs[i] < cb
    requires forall i :: 0 <= i < |cs| ==> ms[i] == Moved(cs[i], d, c)
    requires forall i :: 0 <= i < |cs| ==> Moved(Moved(cs[i], d, c), e, c2) == Moved(cs[i], d + e, c || c2)
    ensures MovedAll(ms, mb, e, c2) == MovedAll(cs, cb, d + e, c || c2)
  {
    MovedAllAt(ms, mb, e, c2);
    MovedAllAt(cs, cb, d + e, c || c2);
  }

  lemma MovedTwiceTop(n: Node, d: int, c: bool, e: int, c2: bool)
    requires MovedAll(Children(Moved(n, d, c)), Moved(n, d, c), e, c2) == MovedAll(Children(n), n, d + e, c || c2)
    ensures Moved(Moved(n, d, c), e, c2) == Moved(n, d + e, c || c2)
  {
    var m := Moved(n, d, c);
    var cs1 := MovedAll(Children(n), n, d, c);
    var i2 := MoveInfo(m.info, e, c2);
    assert i2 == MoveInfo(n.info, d + e, c || c2);
    var lhs := MovedAll(Children(m), m, e, c2);
    calc {
      Moved(m, e, c2);
      WithChildren(WithInfo(m, i2), lhs);
      { WithInfoWithChildren(n, MoveInfo(n.info, d, c), cs1, i2); }
      WithChildren(WithChildren(WithInfo(n, i2), cs1), lhs);
      { WithChildrenTwice(WithInfo(n, i2), cs1, lhs); }
      WithChildren(WithInfo(n, i2), lhs);
    }
  }

  /** Moving by zero without cleaning changes nothing. */
  lemma {:induction false} MovedIdentity(n: Node)
    ensures Moved(n, 0, false) == n
    decreases n
  {
    var cs := Children(n);
    MovedAllAt(cs, n, 0, false);
    forall i | 0 <= i < |cs| ensures MovedAll(cs, n, 0, false)[i] == cs[i] {
      MovedIdentity(cs[i]);
    }
    assert MovedAll(cs, n, 0, false) == cs;
    assert WithInfo(n, MoveInfo(n.info, 0, false)) == n;
    WithOwnChildren(n);
  }

  /** The position correction is undone by the opposite correction. */
  lemma MovedInverse(n: Node, d: int)
    ensures Moved(Moved(n, d, false), -d, false) == n
  {
    MovedComposeTo(n, d, false, -d, false, 0, false);
    MovedIdentity(n);
  }

  /** Cleaning up a tree leaves no node rendered, and cleaning it again changes nothing. */
  lemma {:induction false} CleanTreeClean(n: Node)
    ensures NoneRendered(Moved(n, 0, true))
    ensures Moved(Moved(n, 0, true), 0, true) == Moved(n, 0, true)
    decreases n
  {
    var cs := Children(n);
    MovedParts(n, 0, true);
    forall i | 0 <= i < |cs| ensures NoneRendered(Moved(cs[i], 0, true)) {
      CleanTreeClean(cs[i]);
    }
    MovedComposeTo(n, 0, true, 0, true, 0, true);
  }

  /** Moving a properly nested tree keeps it properly nested. */
  lemma {:induction false} MovedNested(n: Node, d: int, clean: bool)
    requires Nested(n)
    ensures Nested(Moved(n, d, clean))
    decreases n
  {
    var cs := Children(n);
    var m := Moved(n, d, clean);
    MovedParts(n, d, clean);
    var rs := Children(m);
    forall i | 0 <= i < |cs|
      ensures Nested(rs[i]) && rs[i].Start() == cs[i].Start() + d && rs[i].End() == cs[i].End() + d
    {
      MovedNested(cs[i], d, clean);
      MovedParts(cs[i], d, clean);
    }
    SiblingsShifted(cs, rs, n.Start(), n.End(), d);
    NestedOf(m);
  }

  /** Siblings inside `[lo, hi)` that all move by `d` stay ordered and inside `[lo + d, hi + d)`. */
  lemma SiblingsShifted(cs: seq<Node>, rs: seq<Node>, lo: int, hi: int, d: int)
    requires |rs| == |cs|
    requires forall i :: 0 <= i < |cs| ==> lo <= cs[i].Start() && cs[i].End() <= hi
    requires forall i, j :: 0 <= i < j < |cs| ==> cs[i].End() <= cs[j].Start()
    requires forall i :: 0 <= i < |cs| ==> rs[i].Start() == cs[i].Start() + d && rs[i].End() == cs[i].End() + d
    ensures forall i :: 0 <= i < |rs| ==> lo + d <= rs[i].Start() && rs[i].End() <= hi + d
    ensures forall i, j :: 0 <= i < j < |rs| ==> rs[i].End() <= rs[j].Start()
  {
  }

  // ---------------------------------------------------------------------
  // Putting the re-parsed function back (the replace in parsePartial)
  // ---------------------------------------------------------------------

  /** `cleanUp`: an unrendered node is left alone, a rendered one loses its decoration. */
  function CleanUp(n: Node): (r: Node)
    ensures r == WithInfo(n, n.info.(rendered := false))
  {
    if !n.info.rendered then n else WithInfo(n, n.info.(rendered := false))
  }

  /** The enter step on a node other than the re-parsed function: once it was seen, move the start. */
  function Enter(n: Node, delta: int, seen: bool): (r: Node)
    ensures Children(r) == Children(n)
  {
    if seen then CleanUp(WithInfo(n, n.info.(range := Range(n.Start() + delta, n.End())))) else n
  }

  /** The leave step: once the function was seen, move the end. */
  function Leave(n: Node, delta: int, seen: bool): (r: Node)
    ensures Children(r) == Children(n)
  {
    if seen then CleanUp(WithInfo(n, n.info.(range := Range(n.Start(), n.End() + delta)))) else n
  }

  /**
   * What the re-parsed function is replaced by. When the parse result has no
   * statement of the expected shape the replacement is `undefined`, which
   * replaces nothing: the old function stays, is not descended into, and
   * its leave step still moves its end.
   */
  function Replacement(n: Node, repl: Option<Node>, delta: int): Node {
    if repl.Some? then repl.value else Leave(n, delta, true)
  }

  /**
   * The replacing traversal: the node whose identity is `target` becomes
   * `repl` and is not descended into; every node entered after it has its
   * start moved by `delta`, every node left after it its end; each such
   * step cleans the node up. The flag says whether the target was seen.
   */
  function Splice(n: Node, target: NodeId, repl: Option<Node>, delta: int, seen: bool): (r: (Node, bool))
    ensures seen ==> r.1
    decreases n, 1
  {
    if n.Uid() == target then (Replacement(n, repl, delta), true)
    else
      var m := Enter(n, delta, seen);
      var (cs, seen') := SpliceAll(Children(n), n, target, repl, delta, seen);
      (Leave(WithChildren(m, cs), delta, seen'), seen')
  }

  function SpliceAll(cs: seq<Node>, ghost bound: Node, target: NodeId, repl: Option<Node>, delta: int, seen: bool)
    : (r: (seq<Node>, bool))
    requires forall i :: 0 <= i < |cs| ==> cs[i] < bound
    ensures |r.0| == |cs| && (seen ==> r.1)
    decreases bound, 0, |cs|
  {
    if cs == [] then ([], seen)
    else
      var (c, s1) := Splice(cs[0], target, repl, delta, seen);
      var (rest, s2) := SpliceAll(cs[1..], bound, target, repl, delta, s1);
      ([c] + rest, s2)
  }

  /** Before the target is seen, a subtree without it comes back unchanged. */
  lemma {:induction false} SpliceUntouched(n: Node, target: NodeId, repl: Option<Node>, delta: int)
    requires target !in Uids(n)
    ensures Splice(n, target, repl, delta, false) == (n, false)
    decreases n, 1
  {
    SpliceAllUntouched(Children(n), n, target, repl, delta);
    WithOwnChildren(n);
  }

  lemma {:induction false} SpliceAllUntouched(cs: seq<Node>, bound: Node, target: NodeId, repl: Option<Node>, delta: int)
    requires forall i :: 0 <= i < |cs| ==> cs[i] < bound
    requires target !in UidsAll(cs, bound)
    ensures SpliceAll(cs, bound, target, repl, delta, false) == (cs, false)
    decreases bound, 0, |cs|
  {
    if cs != [] {
      SpliceUntouched(cs[0], target, repl, delta);
      SpliceAllUntouched(cs[1..], bound, target, repl, delta);
      assert [cs[0]] + cs[1..] == cs;
    }
  }

  /** After the target was seen, a subtree is moved by the edit length and cleaned up. */
  lemma {:induction false} SpliceShifts(n: Node, target: NodeId, repl: Option<Node>, delta: int)
    requires target !in Uids(n)
    ensures Splice(n, target, repl, delta, true) == (Moved(n, delta, true), true)
    decreases n, 1
  {
    SpliceAllShifts(Children(n), n, target, repl, delta);
    SpliceShiftsTop(n, target, repl, delta);
  }

  lemma SpliceShiftsTop(n: Node, target: NodeId, repl: Option<Node>, delta: int)
    requires n.Uid() != target
    requires SpliceAll(Children(n), n, target, repl, delta, true) == (MovedAll(Children(n), n, delta, true), true)
    ensures Splice(n, target, repl, delta, true) == (Moved(n, delta, true), true)
  {
    EnterThenLeave(n, MovedAll(Children(n), n, delta, true), delta);
  }

  /** Entering and leaving a node after the target moves both of its ends and cleans it up. */
  lemma EnterThenLeave(n: Node, cs: seq<Node>, delta: int)
    requires |cs| == |Children(n)|
    ensures Leave(WithChildren(Enter(n, delta, true), cs), delta, true)
         == WithChildren(WithInfo(n, MoveInfo(n.info, delta, true)), cs)
  {
    var i1 := n.info.(range := Range(n.Start() + delta, n.End()), rendered := false);
    assert Enter(n, delta, true) == WithInfo(n, i1);
    WithInfoWithChildren(n, i1, cs, MoveInfo(n.info, delta, true));
  }

  lemma {:induction false} SpliceAllShifts(cs: seq<Node>, bound: Node, target: NodeId, repl: Option<Node>, delta: int)
    requires forall i :: 0 <= i < |cs| ==> cs[i] < bound
    requires target !in UidsAll(cs, bound)
    ensures SpliceAll(cs, bound, target, repl, delta, true) == (MovedAll(cs, bound, delta, true), true)
    decreases bound, 0, |cs|
  {
    if cs != [] {
      SpliceShifts(cs[0], target, repl, delta);
      SpliceAllShifts(cs[1..], bound, target, repl, delta);
    }
  }

  /** Where a position of the old document lands: from the end of the edited function on, it moves by the edit length. */
  function Relocated(p: int, fe: int, delta: int): int {
    if p >= fe then p + delta else p
  }

  /** A node's information after the edit: relocated range, and cleaned up when it reaches the end of the function. */
  function RelocateInfo(info: Info, fe: int, delta: int): Info {
    info.(range := Range(Relocated(info.range.start, fe, delta), Relocated(info.range.end, fe, delta)),
          rendered := info.rendered && info.range.end < fe)
  }

  /**
   * Reference definition of the tree after a partial reparse, in terms of
   * positions only: the function `target`, which ends at `fe`, becomes
   * `repl`; every other position at or after `fe` moves by `delta`, and
   * every node reaching `fe` loses its decoration.
   */
  function Relocate(n: Node, target: NodeId, repl: Option<Node>, fe: int, delta: int): Node
    decreases n, 1
  {
    if n.Uid() == target then Replacement(n, repl, delta)
    else WithChildren(WithInfo(n, RelocateInfo(n.info, fe, delta)), RelocateAll(Children(n), n, target, repl, fe, delta))
  }

  function RelocateAll(cs: seq<Node>, ghost bound: Node, target: NodeId, repl: Option<Node>, fe: int, delta: int)
    : (r: seq<Node>)
    requires forall i :: 0 <= i < |cs| ==> cs[i] < bound
    ensures |r| == |cs|
    decreases bound, 0, |cs|
  {
    if cs == [] then [] else [Relocate(cs[0], target, repl, fe, delta)] + RelocateAll(cs[1..], bound, target, repl, fe, delta)
  }

  lemma {:induction false} RelocateAllAt(cs: seq<Node>, bound: Node, target: NodeId, repl: Option<Node>, fe: int, delta: int)
    requires forall i :: 0 <= i < |cs| ==> cs[i] < bound
    ensures forall i :: 0 <= i < |cs| ==>
              RelocateAll(cs, bound, target, repl, fe, delta)[i] == Relocate(cs[i], target, repl, fe, delta)
  {
    if cs != [] {
      RelocateAllAt(cs[1..], bound, target, repl, fe, delta);
    }
  }

  /** Every node carrying the identity `target` spans `[fs, fe)`. */
  predicate TargetAt(n: Node, target: NodeId, fs: int, fe: int)
    decreases n
  {
    && (n.Uid() == target ==> n.Start() == fs && n.End() == fe)
    && forall i :: 0 <= i < |Children(n)| ==> TargetAt(Children(n)[i], target, fs, fe)
  }

  /** A properly nested tree holding the target spans the target's range. */
  lemma {:induction false} TargetWithin(n: Node, target: NodeId, fs: int, fe: int)
    requires Nested(n) && TargetAt(n, target, fs, fe) && target in Uids(n)
    ensures n.Start() <= fs && fe <= n.End()
    decreases n
  {
    if n.Uid() != target {
      UidsAllMember(Children(n), n, target);
      var k :| 0 <= k < |Children(n)| && target in Uids(Children(n)[k]);
      TargetWithin(Children(n)[k], target, fs, fe);
    }
  }

  /** Nodes that end before the edited function are left as they were. */
  lemma {:induction false} RelocateBefore(n: Node, target: NodeId, repl: Option<Node>, fe: int, delta: int)
    requires Nested(n) && n.End() < fe && target !in Uids(n)
    ensures Relocate(n, target, repl, fe, delta) == n
    decreases n
  {
    var cs := Children(n);
    RelocateAllAt(cs, n, target, repl, fe, delta);
    UidsAllMember(cs, n, target);
    forall i | 0 <= i < |cs| ensures Relocate(cs[i], target, repl, fe, delta) == cs[i] {
      RelocateBefore(cs[i], target, repl, fe, delta);
    }
    assert RelocateAll(cs, n, target, repl, fe, delta) == cs;
    RelocateBeforeTop(n, target, repl, fe, delta);
  }

  lemma RelocateBeforeTop(n: Node, target: NodeId, repl: Option<Node>, fe: int, delta: int)
    requires n.Uid() != target && n.Start() <= n.End() < fe
    requires RelocateAll(Children(n), n, target, repl, fe, delta) == Children(n)
    ensures Relocate(n, target, repl, fe, delta) == n
  {
    assert RelocateInfo(n.info, fe, delta) == n.info;
    assert WithInfo(n, n.info) == n;
    WithOwnChildren(n);
  }

  /** Nodes that start at or after the end of the edited function are moved and cleaned up. */
  lemma {:induction false} RelocateAfter(n: Node, target: NodeId, repl: Option<Node>, fe: int, delta: int)
    requires Nested(n) && n.Start() >= fe && target !in Uids(n)
    ensures Relocate(n, target, repl, fe, delta) == Moved(n, delta, true)
    decreases n
  {
    var cs := Children(n);
    RelocateAllAt(cs, n, target, repl, fe, delta);
    MovedAllAt(cs, n, delta, true);
    UidsAllMember(cs, n, target);
    forall i | 0 <= i < |cs| ensures Relocate(cs[i], target, repl, fe, delta) == Moved(cs[i], delta, true) {
      RelocateAfter(cs[i], target, repl, fe, delta);
    }
    assert RelocateAll(cs, n, target, repl, fe, delta) == MovedAll(cs, n, delta, true);
    RelocateAfterTop(n, target, repl, fe, delta);
  }

  lemma RelocateAfterTop(n: Node, target: NodeId, repl: Option<Node>, fe: int, delta: int)
    requires n.Uid() != target && n.Start() >= fe && n.Start() <= n.End()
    requires RelocateAll(Children(n), n, target, repl, fe, delta) == MovedAll(Children(n), n, delta, true)
    ensures Relocate(n, target, repl, fe, delta) == Moved(n, delta, true)
  {
    assert RelocateInfo(n.info, fe, delta) == MoveInfo(n.info, delta, true);
  }

  /**
   * The replacing traversal computes the reference definition: on a properly
   * nested tree holding the re-parsed function once in its range `[fs, fe)`,
   * splicing in `repl` yields `Relocate`, and the function is seen.
   */
  lemma {:induction false} SpliceRelocates(n: Node, target: NodeId, repl: Option<Node>, fs: int, fe: int, delta: int)
    requires Nested(n) && TargetAt(n, target, fs, fe) && fs < fe && target in Uids(n)
    ensures Splice(n, target, repl, delta, false) == (Relocate(n, target, repl, fe, delta), true)
    decreases n, 1
  {
    if n.Uid() != target {
      UidsAllMember(Children(n), n, target);
      SpliceAllRelocates(Children(n), n, target, repl, fs, fe, delta, false);
      TargetWithin(n, target, fs, fe);
      SpliceRelocatesTop(n, target, repl, fe, delta);
    }
  }

  lemma SpliceRelocatesTop(n: Node, target: NodeId, repl: Option<Node>, fe: int, delta: int)
    requires n.Uid() != target && n.Start() < fe <= n.End()
    requires SpliceAll(Children(n), n, target, repl, delta, false)
          == (RelocateAll(Children(n), n, target, repl, fe, delta), true)
    ensures Splice(n, target, repl, delta, false) == (Relocate(n, target, repl, fe, delta), true)
  {
    var cs := RelocateAll(Children(n), n, target, repl, fe, delta);
    var i2 := RelocateInfo(n.info, fe, delta);
    var m := WithChildren(n, cs);
    assert Splice(n, target, repl, delta, false) == (Leave(m, delta, true), true);
    assert i2 == m.info.(range := Range(m.Start(), m.End() + delta), rendered := false);
    assert Leave(m, delta, true) == WithInfo(m, i2);
    assert WithInfo(n, n.info) == n;
    WithInfoWithChildren(n, n.info, cs, i2);
  }

  /**
   * What splicing a list of siblings needs: the siblings are properly nested,
   * ordered and carry the target only in `[fs, fe)`; once the target was
   * seen they all start after it, and before that one of them holds it.
   */
  ghost predicate Ready(cs: seq<Node>, bound: Node, target: NodeId, fs: int, fe: int, seen: bool) {
    && (forall i :: 0 <= i < |cs| ==> cs[i] < bound && Nested(cs[i]) && TargetAt(cs[i], target, fs, fe))
    && (forall i, k :: 0 <= i < k < |cs| ==> cs[i].End() <= cs[k].Start())
    && fs < fe
    && (seen ==> forall i :: 0 <= i < |cs| ==> cs[i].Start() >= fe && target !in Uids(cs[i]))
    && (!seen ==> exists k :: 0 <= k < |cs| && target in Uids(cs[k]))
  }

  lemma {:induction false} SpliceAllRelocates(cs: seq<Node>, bound: Node, target: NodeId, repl: Option<Node>,
                                              fs: int, fe: int, delta: int, seen: bool)
    requires forall i :: 0 <= i < |cs| ==> cs[i] < bound
    requires Ready(cs, bound, target, fs, fe, seen)
    ensures SpliceAll(cs, bound, target, repl, delta, seen) == (RelocateAll(cs, bound, target, repl, fe, delta), true)
    decreases bound, 0, |cs|, 1
  {
    if cs != [] {
      var s1 := FirstRelocates(cs, bound, target, repl, fs, fe, delta, seen);
      SpliceAllRelocates(cs[1..], bound, target, repl, fs, fe, delta, s1);
      SpliceAllStep(cs, bound, target, repl, fe, delta, seen, s1);
    }
  }

  /** The first sibling is spliced like the reference definition, and the rest are ready for the next step. */
  lemma {:induction false} FirstRelocates(cs: seq<Node>, bound: Node, target: NodeId, repl: Option<Node>,
                                          fs: int, fe: int, delta: int, seen: bool) returns (s1: bool)
    requires cs != []
    requires forall i :: 0 <= i < |cs| ==> cs[i] < bound
    requires Ready(cs, bound, target, fs, fe, seen)
    ensures forall i :: 0 <= i < |cs[1..]| ==> cs[1..][i] < bound
    ensures Splice(cs[0], target, repl, delta, seen) == (Relocate(cs[0], target, repl, fe, delta), s1)
    ensures Ready(cs[1..], bound, target, fs, fe, s1)
    decreases bound, 0, |cs|, 0
  {
    if seen {
      FirstAfter(cs, bound, target, repl, fs, fe, delta);
      s1 := true;
    } else if target in Uids(cs[0]) {
      SpliceRelocates(cs[0], target, repl, fs, fe, delta);
      FirstHolds(cs, bound, target, fs, fe);
      s1 := true;
    } else {
      FirstBefore(cs, bound, target, repl, fs, fe, delta);
      s1 := false;
    }
  }

  /** A sibling after the target is moved, and so are the siblings after it. */
  lemma FirstAfter(cs: seq<Node>, bound: Node, target: NodeId, repl: Option<Node>, fs: int, fe: int, delta: int)
    requires cs != [] && Ready(cs, bound, target, fs, fe, true)
    ensures Splice(cs[0], target, repl, delta, true) == (Relocate(cs[0], target, repl, fe, delta), true)
    ensures Ready(cs[1..], bound, target, fs, fe, true)
  {
    SpliceShifts(cs[0], target, repl, delta);
    RelocateAfter(cs[0], target, repl, fe, delta);
    ReadyTail(cs, bound, target, fs, fe, true, true);
  }

  /** When the first sibling holds the target, every later sibling starts after the target. */
  lemma FirstHolds(cs: seq<Node>, bound: Node, target: NodeId, fs: int, fe: int)
    requires cs != [] && Ready(cs, bound, target, fs, fe, false) && target in Uids(cs[0])
    ensures Ready(cs[1..], bound, target, fs, fe, true)
  {
    TargetWithin(cs[0], target, fs, fe);
    forall i | 1 <= i < |cs| ensures cs[i].Start() >= fe && target !in Uids(cs[i]) {
      assert cs[0].End() <= cs[i].Start();
      if target in Uids(cs[i]) {
        TargetWithin(cs[i], target, fs, fe);
      }
    }
    ReadyTail(cs, bound, target, fs, fe, false, true);
  }

  /** A sibling before the target comes back unchanged, and a later sibling still holds the target. */
  lemma FirstBefore(cs: seq<Node>, bound: Node, target: NodeId, repl: Option<Node>, fs: int, fe: int, delta: int)
    requires cs != [] && Ready(cs, bound, target, fs, fe, false) && target !in Uids(cs[0])
    ensures Splice(cs[0], target, repl, delta, false) == (Relocate(cs[0], target, repl, fe, delta), false)
    ensures Ready(cs[1..], bound, target, fs, fe, false)
  {
    var k :| 0 <= k < |cs| && target in Uids(cs[k]);
    TargetWithin(cs[k], target, fs, fe);
    assert cs[0].End() <= cs[k].Start();
    SpliceUntouched(cs[0], target, repl, delta);
    RelocateBefore(cs[0], target, repl, fe, delta);
    ReadyTail(cs, bound, target, fs, fe, false, false);
  }

  lemma ReadyTail(cs: seq<Node>, bound: Node, target: NodeId, fs: int, fe: int, seen: bool, s1: bool)
    requires cs != [] && Ready(cs, bound, target, fs, fe, seen)
    requires s1 ==> forall i :: 1 <= i < |cs| ==> cs[i].Start() >= fe && target !in Uids(cs[i])
    requires !s1 ==> exists k :: 1 <= k < |cs| && target in Uids(cs[k])
    ensures Ready(cs[1..], bound, target, fs, fe, s1)
  {
    FitsTail(cs, bound, target, fs, fe);
    if s1 {
      ClearTail(cs, target, fe);
    } else {
      HoldsTail(cs, target);
    }
  }

  lemma FitsTail(cs: seq<Node>, bound: Node, target: NodeId, fs: int, fe: int)
    requires cs != []
    requires forall i :: 0 <= i < |cs| ==> cs[i] < bound && Nested(cs[i]) && TargetAt(cs[i], target, fs, fe)
    requires forall i, k :: 0 <= i < k < |cs| ==> cs[i].End() <= cs[k].Start()
    ensures forall i :: 0 <= i < |cs[1..]| ==>
              cs[1..][i] < bound && Nested(cs[1..][i]) && TargetAt(cs[1..][i], target, fs, fe)
    ensures forall i, k :: 0 <= i < k < |cs[1..]| ==> cs[1..][i].End() <= cs[1..][k].Start()
  {
    var rest := cs[1..];
    forall i | 0 <= i < |rest|
      ensures rest[i] < bound && Nested(rest[i]) && TargetAt(rest[i], target, fs, fe)
    {
      assert rest[i] == cs[i + 1];
    }
    forall i, j | 0 <= i < j < |rest| ensures rest[i].End() <= rest[j].Start() {
      assert rest[i] == cs[i + 1] && rest[j] == cs[j + 1];
    }
  }

  lemma ClearTail(cs: seq<Node>, target: NodeId, fe: int)
    requires cs != []
    requires forall i :: 1 <= i < |cs| ==> cs[i].Start() >= fe && target !in Uids(cs[i])
    ensures forall i :: 0 <= i < |cs[1..]| ==> cs[1..][i].Start() >= fe && target !in Uids(cs[1..][i])
  {
    var rest := cs[1..];
    forall i | 0 <= i < |rest| ensures rest[i].Start() >= fe && target !in Uids(rest[i]) {
      assert rest[i] == cs[i + 1];
    }
  }

  lemma HoldsTail(cs: seq<Node>, target: NodeId)
    requires exists k :: 1 <= k < |cs| && target in Uids(cs[k])
    ensures exists k :: 0 <= k < |cs[1..]| && target in Uids(cs[1..][k])
  {
    var k :| 1 <= k < |cs| && target in Uids(cs[k]);
    assert cs[1..][k - 1] == cs[k];
  }

  lemma SpliceAllStep(cs: seq<Node>, bound: Node, target: NodeId, repl: Option<Node>, fe: int, delta: int, seen: bool, s1: bool)
    requires forall i :: 0 <= i < |cs| ==> cs[i] < bound
    requires cs != []
    requires Splice(cs[0], target, repl, delta, seen) == (Relocate(cs[0], target, repl, fe, delta), s1)
    requires SpliceAll(cs[1..], bound, target, repl, delta, s1) == (RelocateAll(cs[1..], bound, target, repl, fe, delta), true)
    ensures SpliceAll(cs, bound, target, repl, delta, seen) == (RelocateAll(cs, bound, target, repl, fe, delta), true)
  {
  }

  /**
   * The tree after a partial reparse is properly nested again when the
   * re-parsed function is properly nested and lies between the old start of
   * the function and its end moved by the edit length.
   */
  lemma {:induction false} RelocateNested(n: Node, target: NodeId, repl: Option<Node>, fs: int, fe: int, delta: int)
    requires Nested(n) && TargetAt(n, target, fs, fe) && fs < fe && target in Uids(n)
    requires repl.Some? && Nested(repl.value) && fs <= repl.value.Start() && repl.value.End() <= fe + delta
    ensures var r := Relocate(n, target, repl, fe, delta);
            Nested(r) && n.Start() <= r.Start() && r.End() <= n.End() + delta
    decreases n
  {
    if n.Uid() != target {
      var cs := Children(n);
      UidsAllMember(cs, n, target);
      var k :| 0 <= k < |cs| && target in Uids(cs[k]);
      TargetWithin(cs[k], target, fs, fe);
      RelocateNested(cs[k], target, repl, fs, fe, delta);
      forall i | 0 <= i < |cs| && i != k
        ensures target !in Uids(cs[i])
        ensures i < k ==> cs[i].End() < fe
        ensures i > k ==> cs[i].Start() >= fe
      {
        if target in Uids(cs[i]) {
          TargetWithin(cs[i], target, fs, fe);
        }
      }
      RelocateNestedTop(n, target, repl, fs, fe, delta, k);
    }
  }

  lemma RelocatedSibling(c: Node, target: NodeId, repl: Option<Node>, fe: int, delta: int)
    requires Nested(c) && target !in Uids(c) && (c.End() < fe || c.Start() >= fe)
    ensures var r := Relocate(c, target, repl, fe, delta);
            && Nested(r)
            && (c.End() < fe ==> r.Start() == c.Start() && r.End() == c.End())
            && (c.Start() >= fe ==> r.Start() == c.Start() + delta && r.End() == c.End() + delta)
  {
    if c.End() < fe {
      RelocateBefore(c, target, repl, fe, delta);
    } else {
      RelocateAfter(c, target, repl, fe, delta);
      MovedNested(c, delta, true);
      MovedParts(c, delta, true);
    }
  }

  lemma RelocateNestedTop(n: Node, target: NodeId, repl: Option<Node>, fs: int, fe: int, delta: int, k: nat)
    requires Nested(n) && n.Uid() != target && k < |Children(n)|
    requires fs < fe && fs <= fe + delta
    requires var c := Children(n)[k]; var r := Relocate(c, target, repl, fe, delta);
             c.Start() <= fs && fe <= c.End() && Nested(r) && c.Start() <= r.Start() && r.End() <= c.End() + delta
    requires forall i :: 0 <= i < |Children(n)| && i != k ==>
               && target !in Uids(Children(n)[i])
               && (i < k ==> Children(n)[i].End() < fe)
               && (i > k ==> Children(n)[i].Start() >= fe)
    ensures var r := Relocate(n, target, repl, fe, delta);
            Nested(r) && n.Start() <= r.Start() && r.End() <= n.End() + delta
  {
    var r := Relocate(n, target, repl, fe, delta);
    var cs := Children(n);
    assert n.Start() <= cs[k].Start() && cs[k].End() <= n.End();
    RelocateSpan(n, target, repl, fe, delta);
    RelocateKeepsShape(n, target, repl, fe, delta);
    SiblingsRelocated(cs, n, target, repl, fe, delta, k);
    AroundNested(n, r, k, delta);
  }

  /**
   * A node is properly nested again when it spans its old range with the
   * end moved by `delta` and its children are those of a properly nested
   * node with child `k` kept inside its own range (end moved by `delta`),
   * the children before it unchanged in range and those after it moved.
   */
  lemma AroundNested(n: Node, r: Node, k: nat, delta: int)
    requires Nested(n) && k < |Children(n)| && |Children(r)| == |Children(n)|
    requires r.Start() == n.Start() && r.End() == n.End() + delta
    requires forall i :: 0 <= i < |Children(r)| ==> Nested(Children(r)[i])
    requires Children(n)[k].Start() <= Children(r)[k].Start() && Children(r)[k].End() <= Children(n)[k].End() + delta
    requires forall i :: 0 <= i < k ==>
               Children(r)[i].Start() == Children(n)[i].Start() && Children(r)[i].End() == Children(n)[i].End()
    requires forall i :: k < i < |Children(n)| ==>
               Children(r)[i].Start() == Children(n)[i].Start() + delta && Children(r)[i].End() == Children(n)[i].End() + delta
    ensures Nested(r)
  {
    SiblingsAround(Children(n), Children(r), n.Start(), n.End(), k, delta);
    NestedOf(r);
  }

  /** A node around the end of the function keeps its start and has its end moved. */
  lemma RelocateSpan(n: Node, target: NodeId, repl: Option<Node>, fe: int, delta: int)
    requires n.Uid() != target && n.Start() < fe <= n.End()
    ensures Relocate(n, target, repl, fe, delta).Start() == n.Start()
    ensures Relocate(n, target, repl, fe, delta).End() == n.End() + delta
  {
  }

  /** `Nested`, one level at a time. */
  lemma NestedOf(r: Node)
    requires r.Start() <= r.End()
    requires forall i :: 0 <= i < |Children(r)| ==> Nested(Children(r)[i])
    requires forall i :: 0 <= i < |Children(r)| ==> r.Start() <= Children(r)[i].Start() && Children(r)[i].End() <= r.End()
    requires forall i, j :: 0 <= i < j < |Children(r)| ==> Children(r)[i].End() <= Children(r)[j].Start()
    ensures Nested(r)
  {
  }

  /**
   * Siblings inside `[lo, hi)` stay ordered and inside `[lo, hi + delta)`
   * when sibling `k` stays inside its own range with the end moved by
   * `delta`, the siblings before it keep their ranges and those after it
   * move by `delta`.
   */
  lemma SiblingsAround(cs: seq<Node>, rs: seq<Node>, lo: int, hi: int, k: nat, delta: int)
    requires |rs| == |cs| && k < |cs|
    requires forall i :: 0 <= i < |cs| ==> lo <= cs[i].Start() && cs[i].End() <= hi
    requires forall i, j :: 0 <= i < j < |cs| ==> cs[i].End() <= cs[j].Start()
    requires rs[k].Start() <= rs[k].End()
    requires cs[k].Start() <= rs[k].Start() && rs[k].End() <= cs[k].End() + delta
    requires forall i :: 0 <= i < k ==> rs[i].Start() == cs[i].Start() && rs[i].End() == cs[i].End()
    requires forall i :: k < i < |cs| ==> rs[i].Start() == cs[i].Start() + delta && rs[i].End() == cs[i].End() + delta
    ensures lo <= hi + delta
    ensures forall i :: 0 <= i < |rs| ==> lo <= rs[i].Start() && rs[i].End() <= hi + delta
    ensures forall i, j :: 0 <= i < j < |rs| ==> rs[i].End() <= rs[j].Start()
  {
    forall i | 0 <= i < |rs| ensures lo <= rs[i].Start() && rs[i].End() <= hi + delta {
      if i < k {
        assert cs[i].End() <= cs[k].Start();
      } else if i > k {
        assert cs[k].End() <= cs[i].Start();
      }
    }
    forall i, j | 0 <= i < j < |rs| ensures rs[i].End() <= rs[j].Start() {
      assert cs[i].End() <= cs[j].Start();
      if i < k && k < j {
        assert cs[i].End() <= cs[k].Start() && cs[k].End() <= cs[j].Start();
      }
    }
  }

  /** Away from the target, relocating a node relocates its children in place. */
  lemma RelocateKeepsShape(n: Node, target: NodeId, repl: Option<Node>, fe: int, delta: int)
    requires n.Uid() != target
    ensures Children(Relocate(n, target, repl, fe, delta)) == RelocateAll(Children(n), n, target, repl, fe, delta)
  {
  }

  lemma SiblingsRelocated(cs: seq<Node>, bound: Node, target: NodeId, repl: Option<Node>, fe: int, delta: int, k: nat)
    requires forall i :: 0 <= i < |cs| ==> cs[i] < bound && Nested(cs[i])
    requires k < |cs| && Nested(Relocate(cs[k], target, repl, fe, delta))
    requires forall i :: 0 <= i < |cs| && i != k ==>
               && target !in Uids(cs[i])
               && (i < k ==> cs[i].End() < fe)
               && (i > k ==> cs[i].Start() >= fe)
    ensures var rs := RelocateAll(cs, bound, target, repl, fe, delta);
            && rs[k] == Relocate(cs[k], target, repl, fe, delta)
            && (forall i :: 0 <= i < |cs| ==> Nested(rs[i]))
            && (forall i :: 0 <= i < k ==> rs[i].Start() == cs[i].Start() && rs[i].End() == cs[i].End())
            && (forall i :: k < i < |cs| ==> rs[i].Start() == cs[i].Start() + delta && rs[i].End() == cs[i].End() + delta)
  {
    RelocateAllAt(cs, bound, target, repl, fe, delta);
    forall i | 0 <= i < |cs| && i != k {
      RelocatedSibling(cs[i], target, repl, fe, delta);
    }
  }

  // ---------------------------------------------------------------------
  // Cleaning up the old function (the end of processAST)
  // ---------------------------------------------------------------------

  /**
   * `processAST` cleans up every node of the old function it is handed. That
   * node is still in the tree only when the re-parse replaced nothing; there
   * the node carrying the function's identity and everything in it lose
   * their rendered flag.
   */
  function CleanWithin(n: Node, target: NodeId): Node
    decreases n, 1
  {
    if n.Uid() == target then Moved(n, 0, true)
    else WithChildren(n, CleanWithinAll(Children(n), n, target))
  }

  function CleanWithinAll(cs: seq<Node>, ghost bound: Node, target: NodeId): (r: seq<Node>)
    requires forall i :: 0 <= i < |cs| ==> cs[i] < bound
    ensures |r| == |cs|
    decreases bound, 0, |cs|
  {
    if cs == [] then [] else [CleanWithin(cs[0], target)] + CleanWithinAll(cs[1..], bound, target)
  }

  lemma {:induction false} CleanWithinAllAt(cs: seq<Node>, bound: Node, target: NodeId)
    requires forall i :: 0 <= i < |cs| ==> cs[i] < bound
    ensures forall i :: 0 <= i < |cs| ==> CleanWithinAll(cs, bound, target)[i] == CleanWithin(cs[i], target)
  {
    if cs != [] {
      CleanWithinAllAt(cs[1..], bound, target);
    }
  }

  /** Every node carrying the identity `target`, and everything inside it, is unrendered. */
  predicate CleanAt(n: Node, target: NodeId)
    decreases n
  {
    && (n.Uid() == target ==> NoneRendered(n))
    && forall i :: 0 <= i < |Children(n)| ==> CleanAt(Children(n)[i], target)
  }

  lemma {:induction false} NoneRenderedCleanAt(n: Node, target: NodeId)
    requires NoneRendered(n)
    ensures CleanAt(n, target)
    decreases n
  {
    forall i | 0 <= i < |Children(n)| ensures CleanAt(Children(n)[i], target) {
      NoneRenderedCleanAt(Children(n)[i], target);
    }
  }

  /** After the clean-up the old function and everything in it are unrendered. */
  lemma {:induction false} CleanWithinCleans(n: Node, target: NodeId)
    ensures CleanAt(CleanWithin(n, target), target)
    decreases n
  {
    if n.Uid() == target {
      CleanTreeClean(n);
      NoneRenderedCleanAt(Moved(n, 0, true), target);
    } else {
      var cs := Children(n);
      CleanWithinAllAt(cs, n, target);
      forall i | 0 <= i < |cs| ensures CleanAt(CleanWithin(cs[i], target), target) {
        CleanWithinCleans(cs[i], target);
      }
    }
  }

  /** A tree that does not hold the old function is left as it is. */
  lemma {:induction false} CleanWithinUntouched(n: Node, target: NodeId)
    requires target !in Uids(n)
    ensures CleanWithin(n, target) == n
    decreases n
  {
    var cs := Children(n);
    CleanWithinAllAt(cs, n, target);
    UidsAllMember(cs, n, target);
    forall i | 0 <= i < |cs| ensures CleanWithin(cs[i], target) == cs[i] {
      CleanWithinUntouched(cs[i], target);
    }
    assert CleanWithinAll(cs, n, target) == cs;
    WithOwnChildren(n);
  }

  /** The clean-up changes nothing but rendered flags: cleaning the whole tree afterwards gives the same tree. */
  lemma {:induction false} CleanWithinOnlyFlags(n: Node, target: NodeId)
    ensures Moved(CleanWithin(n, target), 0, true) == Moved(n, 0, true)
    decreases n
  {
    if n.Uid() == target {
      CleanTreeClean(n);
    } else {
      var cs := Children(n);
      var ms := CleanWithinAll(cs, n, target);
      CleanWithinAllAt(cs, n, target);
      forall i | 0 <= i < |cs| ensures Moved(ms[i], 0, true) == Moved(cs[i], 0, true) {
        CleanWithinOnlyFlags(cs[i], target);
      }
      var m := WithChildren(n, ms);
      CleanedAllAlike(ms, m, cs, n);
      CleanWithinOnlyFlagsTop(n, ms);
    }
  }

  lemma CleanedAllAlike(ms: seq<Node>, mb: Node, cs: seq<Node>, cb: Node)
    requires |ms| == |cs|
    requires forall i :: 0 <= i < |ms| ==> ms[i] < mb
    requires forall i :: 0 <= i < |cs| ==> cs[i] < cb
    requires forall i :: 0 <= i < |cs| ==> Moved(ms[i], 0, true) == Moved(cs[i], 0, true)
    ensures MovedAll(ms, mb, 0, true) == MovedAll(cs, cb, 0, true)
  {
    MovedAllAt(ms, mb, 0, true);
    MovedAllAt(cs, cb, 0, true);
  }

  lemma CleanWithinOnlyFlagsTop(n: Node, ms: seq<Node>)
    requires |ms| == |Children(n)|
    requires MovedAll(ms, WithChildren(n, ms), 0, true) == MovedAll(Children(n), n, 0, true)
    ensures Moved(WithChildren(n, ms), 0, true) == Moved(n, 0, true)
  {
    var m := WithChildren(n, ms);
    var info := MoveInfo(n.info, 0, true);
    var xs := MovedAll(Children(n), n, 0, true);
    assert WithInfo(n, n.info) == n;
    calc {
      Moved(m, 0, true);
      WithChildren(WithInfo(m, info), xs);
      { WithInfoWithChildren(n, n.info, ms, info); }
      WithChildren(WithChildren(WithInfo(n, info), ms), xs);
      { WithChildrenTwice(WithInfo(n, info), ms, xs); }
      WithChildren(WithInfo(n, info), xs);
    }
  }
}
