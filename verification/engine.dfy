/**
 * The editor's parse scheduling: on every edit it either re-parses only the
 * function the edit falls into or the whole document, in a parser worker
 * that answers requests in order; a worker still busy is killed first, a
 * failed partial parse arms a recovery timer that re-parses the whole
 * document, and every answer is handled by the callbacks installed by the
 * most recent request.
 *
 * The worker, the timer and the document are not executed: edits, parser
 * answers and the timer firing are the events of a state machine.
 */
module Engine {
  import opened Base
  import opened Ast
  import Resolver
  import opened Reparse

  /** A request posted to the worker and not answered yet; `id` counts the requests ever posted. */
  datatype Posted = Posted(id: nat, text: string)

  /** The callbacks the last request installed on the worker (`onmessage` and `onerror`). */
  datatype Handler =
    | FullHandler
      /** A partial parse of `context`, for the document `doc`, after an edit of length `posChange`. */
    | PartialHandler(doc: string, context: Node, posChange: int, idxCorr: int, isExpression: bool)

  /** The recovery timer handle `cleanup`: unset, armed with the document to re-parse, or fired and not cleared. */
  datatype Timer = Unset | Armed(doc: string) | Fired

  datatype State = State(
    running: bool,
    cleanup: Timer,
    handler: Handler,
    /** The request whose call installed the current handler. */
    handlerFor: nat,
    inFlight: seq<Posted>,
    posted: nat,
    ast: Option<Node>)

  /** What the worker answers: the parsed program, or a parse error. */
  datatype Outcome = Parsed(tree: Node) | Failed

  datatype Event =
      /** A document change; `pos` is the document offset of the change's start. */
    | Edit(doc: string, pos: int, change: Change)
    | Respond(outcome: Outcome)
    | TimerFires

  function Init(): State {
    State(false, Unset, FullHandler, 0, [], 0, None)
  }

  /**
   * The analysis run on every parsed or spliced tree (`processAST`): it only
   * annotates, so the tree keeps its shape, ranges and identities.
   */
  function Process(t: Node): (r: Node)
    ensures SameTree(t, r) && Uids(r) == Uids(t)
  {
    if Resolver.NamesAreIdentifiers(t) then
      Resolver.AnalysisKeepsTree(Resolver.Current, t);
      Resolver.PerformBindingAnalysis(Resolver.Current, t).0
    else
      SameTreeRefl(t);
      t
  }

  /**
   * Requests are numbered in posting order: the ids in flight increase from
   * the oldest request to the newest, were all handed out already, and none
   * is newer than the request the handler was installed for.
   */
  predicate Numbered(s: State) {
    && (forall i, j :: 0 <= i < j < |s.inFlight| ==> s.inFlight[i].id < s.inFlight[j].id)
    && (forall i :: 0 <= i < |s.inFlight| ==> s.inFlight[i].id < s.posted && s.inFlight[i].id <= s.handlerFor)
  }

  /**
   * Installs the handler of a new request and posts its text to the worker.
   * The request is queued behind every request still in flight, and the
   * handler it installs belongs to none of those.
   */
  function Post(s: State, text: string, h: Handler): (r: State)
    ensures r.running && r.handler == h && r.posted == s.posted + 1 && r.handlerFor == s.posted
    ensures |r.inFlight| == |s.inFlight| + 1 && r.inFlight[..|s.inFlight|] == s.inFlight
    ensures r.inFlight[|s.inFlight|] == Posted(r.handlerFor, text)
    ensures Numbered(s) ==> Numbered(r) && forall i :: 0 <= i < |s.inFlight| ==> r.inFlight[i].id != r.handlerFor
    ensures r.cleanup == s.cleanup && r.ast == s.ast
  {
    s.(running := true, handler := h, handlerFor := s.posted,
       inFlight := s.inFlight + [Posted(s.posted, text)], posted := s.posted + 1)
  }

  /** Kills the worker and starts a fresh one: nothing posted before is answered, and nothing else changes. */
  function Terminate(s: State): (r: State)
    ensures !r.running && r.inFlight == [] && Numbered(r)
    ensures r.cleanup == s.cleanup && r.handler == s.handler && r.handlerFor == s.handlerFor
    ensures r.posted == s.posted && r.ast == s.ast
  {
    s.(running := false, inFlight := [])
  }

  /** `parseFull`: the whole document, answered by the full handler. */
  function ParseFull(s: State, doc: string): (r: State)
    ensures r.running && r.handler == FullHandler && r.handlerFor == s.posted && r.posted == s.posted + 1
    ensures r.inFlight == s.inFlight + [Posted(s.posted, doc)]
    ensures r.cleanup == s.cleanup && r.ast == s.ast
  {
    Post(s, doc, FullHandler)
  }

  /**
   * `parsePartial`: the function's text in the edited document, answered by
   * a partial handler that remembers the function, the document, the edit
   * length and the position correction of the text.
   */
  function ParsePartial(s: State, doc: string, context: Node, change: Change): (r: State)
    requires IsFunction(context)
    ensures var req := PartialRequest(doc, context, ChangeLength(change));
            && r.running && r.handlerFor == s.posted && r.posted == s.posted + 1
            && r.handler == PartialHandler(doc, context, ChangeLength(change), req.idxCorr, req.isExpression)
            && r.inFlight == s.inFlight + [Posted(s.posted, req.text)]
    ensures r.cleanup == s.cleanup && r.ast == s.ast
  {
    var posChange := ChangeLength(change);
    var req := PartialRequest(doc, context, posChange);
    Post(s, req.text, PartialHandler(doc, context, posChange, req.idxCorr, req.isExpression))
  }

  /** `parse`, called on every document change; `EditPosts` states what it does. */
  function OnEdit(p: Policy, s: State, doc: string, pos: int, change: Change): (r: State)
    ensures r.running && r.posted == s.posted + 1 && r.handlerFor == s.posted && r.cleanup == Unset
    ensures r.ast == s.ast && |r.inFlight| > 0 && r.inFlight[|r.inFlight| - 1] == Posted(s.posted, r.inFlight[|r.inFlight| - 1].text)
  {
    if s.cleanup != Unset then
      var s1 := s.(cleanup := Unset);
      ParseFull(if p == Corrected && s1.running then Terminate(s1) else s1, doc)
    else
      var fun := FindPathToPos(pos, s.ast);
      var s1 := if s.running then Terminate(s) else s;
      if fun.Some? then ParsePartial(s1, doc, fun.value, change) else ParseFull(s1, doc)
  }

  /** What the partial handler takes out of the parsed program. */
  datatype Extracted =
      /** Reading the statement failed with an exception. */
    | Throws
      /** The statement or its expression is `undefined`. */
    | Missing
    | Found(node: Node)

  /**
   * The first statement of the parsed program, or for a function
   * expression (parsed in parentheses) that statement's expression.
   */
  function Extract(t: Node, isExpression: bool): (r: Extracted)
    ensures r.Throws? <==> !t.Program? || (|t.body| == 0 && isExpression)
    ensures r.Found? ==> t.Program? && |t.body| > 0
    ensures !isExpression && r.Found? ==> r.node == t.body[0]
    ensures isExpression && r.Found? ==> t.body[0].Other? && t.body[0].children != [] && r.node == t.body[0].children[0]
  {
    if !t.Program? then Throws
    else if |t.body| == 0 then (if isExpression then Throws else Missing)
    else if !isExpression then Found(t.body[0])
    else if t.body[0].Other? && t.body[0].tag == "ExpressionStatement" && t.body[0].children != [] then
      Found(t.body[0].children[0])
    else Missing
  }

  /**
   * The partial handler's success path: take the statement out, correct its
   * positions by `idxCorr`, splice it in place of the function, then
   * re-analyse the whole tree.
   */
  function SpliceResult(h: Handler, ast: Node, t: Node): Option<Node>
    requires h.PartialHandler?
  {
    var x := Extract(t, h.isExpression);
    if x.Throws? then None
    else
      var repl := if x.Found? then Some(Moved(x.node, h.idxCorr, false)) else None;
      Some(Splice(ast, h.context.Uid(), repl, h.posChange, false).0)
  }

  /**
   * The worker answers the oldest request; the current handler deals with
   * the answer (`RespondHandles` states how).
   */
  function OnRespond(s: State, o: Outcome): (r: State)
    requires s.inFlight != []
    ensures !r.running && r.inFlight == s.inFlight[1..]
    ensures r.handler == s.handler && r.handlerFor == s.handlerFor && r.posted == s.posted
  {
    var s1 := s.(running := false, inFlight := s.inFlight[1..]);
    match (s.handler, o)
    case (FullHandler, Parsed(t)) => s1.(cleanup := Unset, ast := Some(Process(t)))
    case (FullHandler, Failed) => s1
    case (PartialHandler(doc, _, _, _, _), Failed) =>
      if s.cleanup == Unset then s1.(cleanup := Armed(doc)) else s1
    case (PartialHandler(_, _, _, _, _), Parsed(t)) =>
      var s2 := s1.(cleanup := Unset);
      if s.ast.None? then s2
      else
        var spliced := SpliceResult(s.handler, s.ast.value, t);
        if spliced.None? then s2
        else
          var analysed := Process(spliced.value);
          var kept := !Extract(t, s.handler.isExpression).Found?;
          s2.(ast := Some(if kept then CleanWithin(analysed, s.handler.context.Uid()) else analysed))
  }

  /** The recovery timer fires: a full parse of the document captured when it was armed. */
  function OnTimer(s: State): (r: State)
    requires s.cleanup.Armed?
    ensures r.cleanup == Fired && r.handler == FullHandler && r.running && r.handlerFor == s.posted
    ensures r.inFlight == s.inFlight + [Posted(s.posted, s.cleanup.doc)] && r.ast == s.ast
  {
    ParseFull(s.(cleanup := Fired), s.cleanup.doc)
  }

  /** One event. An answer with nothing in flight and a timer that is not armed do not occur. */
  function Step(p: Policy, s: State, e: Event): State {
    match e
    case Edit(doc, pos, change) => OnEdit(p, s, doc, pos, change)
    case Respond(o) => if s.inFlight == [] then s else OnRespond(s, o)
    case TimerFires => if s.cleanup.Armed? then OnTimer(s) else s
  }

  function Run(p: Policy, s: State, es: seq<Event>): State
    decreases |es|
  {
    if es == [] then s else Run(p, Step(p, s, es[0]), es[1..])
  }

  /**
   * Answers reach the request that installed the handler: at most one
   * request is in flight, `running` says whether one is, it is the one the
   * handler was installed for, and an armed timer means nothing is in flight.
   */
  predicate Routed(s: State) {
    && |s.inFlight| <= 1
    && (s.running <==> |s.inFlight| == 1)
    && (s.inFlight != [] ==> s.inFlight[0].id == s.handlerFor)
    && (s.cleanup.Armed? ==> s.inFlight == [])
  }

  lemma InitRouted()
    ensures Routed(Init())
  {
  }

  /** With the corrected recovery path every event keeps answers routed to their own request. */
  lemma StepRouted(s: State, e: Event)
    requires Routed(s)
    ensures Routed(Step(Corrected, s, e))
  {
  }

  /** Any run of the corrected editor keeps answers routed to their own request. */
  lemma {:induction false} RunRouted(s: State, es: seq<Event>)
    requires Routed(s)
    ensures Routed(Run(Corrected, s, es))
    decreases |es|
  {
    if es != [] {
      StepRouted(s, es[0]);
      RunRouted(Step(Corrected, s, es[0]), es[1..]);
    }
  }

  /**
   * Every edit clears the timer and posts exactly one request: a partial
   * parse of the function found around the edit when no timer was set, a
   * full parse of the document otherwise. The requests in flight are dropped
   * when the worker is killed: when it is busy and no timer was set, or, in
   * the corrected editor, whenever it is busy.
   */
  lemma EditPosts(p: Policy, s: State, doc: string, pos: int, change: Change)
    ensures var r := OnEdit(p, s, doc, pos, change);
            var killed := s.running && (s.cleanup == Unset || p == Corrected);
            && r.running && r.posted == s.posted + 1 && r.handlerFor == s.posted && r.cleanup == Unset && r.ast == s.ast
            && |r.inFlight| > 0 && r.inFlight[..|r.inFlight| - 1] == (if killed then [] else s.inFlight)
            && r.inFlight[|r.inFlight| - 1].id == s.posted
            && (r.handler.PartialHandler? <==> s.cleanup == Unset && FindPathToPos(pos, s.ast).Some?)
            && (r.handler.PartialHandler? ==>
                  && r.handler.doc == doc && r.handler.context == FindPathToPos(pos, s.ast).value
                  && r.handler.posChange == ChangeLength(change)
                  && r.inFlight[|r.inFlight| - 1].text == PartialRequest(doc, r.handler.context, r.handler.posChange).text)
            && (r.handler == FullHandler ==> r.inFlight[|r.inFlight| - 1].text == doc)
  {
  }

  /**
   * A parse clears the timer: a full handler installs the analysed tree, a
   * partial handler the analysed splice, unless there is no tree or taking
   * the statement out throws. A failure keeps the tree; a partial handler's
   * failure arms the timer with its document when no timer is set, a full
   * handler's failure leaves the timer alone.
   */
  lemma RespondHandles(s: State, o: Outcome)
    requires s.inFlight != []
    ensures var r := OnRespond(s, o);
            && (o.Parsed? ==> r.cleanup == Unset)
            && (o.Parsed? && s.handler == FullHandler ==> r.ast == Some(Process(o.tree)))
            && (o.Parsed? && s.handler.PartialHandler? ==>
                  && (r.ast.Some? <==> s.ast.Some?)
                  && (s.ast.None? || Extract(o.tree, s.handler.isExpression).Throws? ==> r.ast == s.ast))
            && (o.Failed? ==> r.ast == s.ast)
            && (o.Failed? && s.handler == FullHandler ==> r.cleanup == s.cleanup)
            && (o.Failed? && s.handler.PartialHandler? ==>
                  r.cleanup == (if s.cleanup == Unset then Armed(s.handler.doc) else s.cleanup))
  {
  }

  /** Every event keeps the requests in flight numbered in posting order, in both editors. */
  lemma StepNumbered(p: Policy, s: State, e: Event)
    requires Numbered(s)
    ensures Numbered(Step(p, s, e))
  {
    match e
    case Edit(doc, pos, c) => EditNumbered(p, s, doc, pos, c);
    case Respond(o) => if s.inFlight != [] { RespondNumbered(s, o); }
    case TimerFires =>
  }

  lemma EditNumbered(p: Policy, s: State, doc: string, pos: int, c: Change)
    requires Numbered(s)
    ensures Numbered(OnEdit(p, s, doc, pos, c))
  {
    var s1 := s.(cleanup := Unset);
    assert Numbered(s1);
  }

  lemma RespondNumbered(s: State, o: Outcome)
    requires Numbered(s) && s.inFlight != []
    ensures Numbered(OnRespond(s, o))
  {
    var r := OnRespond(s, o);
    assert forall i :: 0 <= i < |r.inFlight| ==> r.inFlight[i] == s.inFlight[i + 1];
  }

  lemma {:induction false} RunNumbered(p: Policy, s: State, es: seq<Event>)
    requires Numbered(s)
    ensures Numbered(Run(p, s, es))
    decreases |es|
  {
    if es != [] {
      StepNumbered(p, s, es[0]);
      RunNumbered(p, Step(p, s, es[0]), es[1..]);
    }
  }

  /**
   * With two requests in flight the next answer is for a request older than
   * the one the handler was installed for: it reaches another request's handler.
   */
  lemma OlderAnswerMisrouted(s: State)
    requires Numbered(s) && |s.inFlight| >= 2
    ensures s.inFlight[0].id != s.handlerFor
  {
    assert s.inFlight[0].id < s.inFlight[1].id <= s.handlerFor;
  }

  /** An edit outside every function, with no timer set, kills a busy worker and posts a full parse. */
  lemma EditOutsideFunction(p: Policy, s: State, doc: string, pos: int, c: Change)
    requires s.cleanup == Unset && FindPathToPos(pos, s.ast).None?
    ensures var r := Step(p, s, Edit(doc, pos, c));
            && r.handler == FullHandler && r.running && r.cleanup == Unset && r.ast == s.ast
            && r.inFlight == (if s.running then [] else s.inFlight) + [Posted(s.posted, doc)]
            && r.posted == s.posted + 1 && r.handlerFor == s.posted
  {
  }

  /**
   * A partial answer holding a statement, on a properly nested tree holding
   * the function once in its old range, installs the analysed reference
   * relocation: the function replaced by the statement moved back into
   * document positions, every later position moved by the edit length.
   */
  lemma PartialAnswerRelocates(s: State, t: Node)
    requires s.inFlight != [] && s.handler.PartialHandler? && s.ast.Some?
    requires Nested(s.ast.value) && s.handler.context.Start() < s.handler.context.End()
    requires TargetAt(s.ast.value, s.handler.context.Uid(), s.handler.context.Start(), s.handler.context.End())
    requires s.handler.context.Uid() in Uids(s.ast.value)
    requires Extract(t, s.handler.isExpression).Found?
    ensures var h := s.handler;
            var repl := Moved(Extract(t, h.isExpression).node, h.idxCorr, false);
            OnRespond(s, Parsed(t)).ast
            == Some(Process(Relocate(s.ast.value, h.context.Uid(), Some(repl), h.context.End(), h.posChange)))
  {
    var h := s.handler;
    var repl := Moved(Extract(t, h.isExpression).node, h.idxCorr, false);
    SpliceRelocates(s.ast.value, h.context.Uid(), Some(repl), h.context.Start(), h.context.End(), h.posChange);
  }

  /**
   * A partial answer without a statement of the expected shape keeps the old
   * function in the relocated tree, and `processAST` then leaves that
   * function and everything in it unrendered.
   */
  lemma PartialAnswerKeepsFunction(s: State, t: Node)
    requires s.inFlight != [] && s.handler.PartialHandler? && s.ast.Some?
    requires Nested(s.ast.value) && s.handler.context.Start() < s.handler.context.End()
    requires TargetAt(s.ast.value, s.handler.context.Uid(), s.handler.context.Start(), s.handler.context.End())
    requires s.handler.context.Uid() in Uids(s.ast.value)
    requires Extract(t, s.handler.isExpression).Missing?
    ensures var h := s.handler;
            var r := OnRespond(s, Parsed(t)).ast;
            && r == Some(CleanWithin(Process(Relocate(s.ast.value, h.context.Uid(), None, h.context.End(), h.posChange)),
                                     h.context.Uid()))
            && CleanAt(r.value, h.context.Uid())
  {
    var h := s.handler;
    SpliceRelocates(s.ast.value, h.context.Uid(), None, h.context.Start(), h.context.End(), h.posChange);
    CleanWithinCleans(Process(Relocate(s.ast.value, h.context.Uid(), None, h.context.End(), h.posChange)), h.context.Uid());
  }

  /** An edit inside a function of an idle editor posts a partial parse of the new document. */
  lemma EditStartsPartial(p: Policy, s: State, doc: string, pos: int, c: Change)
    requires !s.running && s.inFlight == [] && s.cleanup == Unset
    requires FindPathToPos(pos, s.ast).Some?
    ensures var r := Step(p, s, Edit(doc, pos, c));
            && r.handler.PartialHandler? && r.handler.doc == doc
            && r.inFlight == [Posted(s.posted, r.inFlight[0].text)]
            && r.running && r.cleanup == Unset && r.ast == s.ast
            && r.posted == s.posted + 1 && r.handlerFor == s.posted
  {
  }

  /** A failed partial parse with no timer set arms the timer with the handler's document. */
  lemma PartialFailureArms(p: Policy, s: State)
    requires s.handler.PartialHandler? && |s.inFlight| == 1 && s.cleanup == Unset
    ensures var r := Step(p, s, Respond(Failed));
            r == s.(running := false, inFlight := [], cleanup := Armed(s.handler.doc))
  {
  }

  /** The armed timer posts a full parse of the document it was armed with. */
  lemma TimerStartsFull(p: Policy, s: State)
    requires s.cleanup.Armed? && s.inFlight == []
    ensures var r := Step(p, s, TimerFires);
            && r.cleanup == Fired && r.handler == FullHandler && r.running
            && r.inFlight == [Posted(s.posted, s.cleanup.doc)]
            && r.posted == s.posted + 1 && r.handlerFor == s.posted && r.ast == s.ast
  {
  }

  /**
   * An edit while the timer is armed, or after it fired, clears it and posts
   * a full parse without looking for a function; only the corrected editor
   * kills the busy worker first.
   */
  lemma EditWithTimerSet(p: Policy, s: State, doc: string, pos: int, c: Change)
    requires s.cleanup != Unset
    ensures var r := Step(p, s, Edit(doc, pos, c));
            && r.handler == FullHandler && r.running && r.cleanup == Unset && r.ast == s.ast
            && r.inFlight == (if p == Corrected && s.running then [] else s.inFlight) + [Posted(s.posted, doc)]
            && r.posted == s.posted + 1 && r.handlerFor == s.posted
  {
  }

  /** A failed full parse only takes the answered request off the queue. */
  lemma FullFailureDrops(p: Policy, s: State)
    requires s.handler == FullHandler && s.inFlight != []
    ensures Step(p, s, Respond(Failed)) == s.(running := false, inFlight := s.inFlight[1..])
  {
  }

  lemma RunCons(p: Policy, s: State, e: Event, es: seq<Event>)
    ensures Run(p, s, [e] + es) == Run(p, Step(p, s, e), es)
  {
    assert ([e] + es)[1..] == es;
  }

  /** Six events run one at a time. */
  lemma RunSix(p: Policy, s: State, e1: Event, e2: Event, e3: Event, e4: Event, e5: Event, e6: Event)
    ensures Run(p, s, [e1, e2, e3, e4, e5, e6])
            == Step(p, Step(p, Step(p, Step(p, Step(p, Step(p, s, e1), e2), e3), e4), e5), e6)
  {
    var s1 := Step(p, s, e1);
    var s2 := Step(p, s1, e2);
    var s3 := Step(p, s2, e3);
    var s4 := Step(p, s3, e4);
    var s5 := Step(p, s4, e5);
    RunCons(p, s5, e6, []);
    RunCons(p, s4, e5, [e6]);
    RunCons(p, s3, e4, [e5, e6]);
    RunCons(p, s2, e3, [e4, e5, e6]);
    RunCons(p, s1, e2, [e3, e4, e5, e6]);
    RunCons(p, s, e1, [e2, e3, e4, e5, e6]);
    assert [e1, e2, e3, e4, e5, e6] == [e1] + [e2, e3, e4, e5, e6];
    assert [e2, e3, e4, e5, e6] == [e2] + [e3, e4, e5, e6];
    assert [e3, e4, e5, e6] == [e3] + [e4, e5, e6];
    assert [e4, e5, e6] == [e4] + [e5, e6];
    assert [e5, e6] == [e5] + [e6];
    assert [e6] == [e6] + [];
  }

  /**
   * The recovery path of the source breaks routing. From an idle editor whose
   * tree has a function around `pos`: a partial parse fails, the timer fires
   * and starts a full parse, an edit starts a second full parse without
   * killing the first, the first fails, and one more edit starts a partial
   * parse. The worker's next answer is the whole-document parse, and it goes
   * to the partial handler.
   */
  lemma AsWrittenMisroutes(s: State, pos: int, d1: string, d2: string, d3: string, c: Change)
    requires !s.running && s.inFlight == [] && s.cleanup == Unset
    requires FindPathToPos(pos, s.ast).Some?
    ensures var es := [Edit(d1, pos, c), Respond(Failed), TimerFires, Edit(d2, pos, c),
                       Respond(Failed), Edit(d3, pos, c)];
            var r := Run(AsWritten, s, es);
            && r.handler.PartialHandler?
            && |r.inFlight| == 2
            && r.inFlight[0].text == d2
            && r.inFlight[0].id != r.handlerFor
            && !Routed(r)
  {
    var s1 := Step(AsWritten, s, Edit(d1, pos, c));
    EditStartsPartial(AsWritten, s, d1, pos, c);
    var s2 := Step(AsWritten, s1, Respond(Failed));
    PartialFailureArms(AsWritten, s1);
    var s3 := Step(AsWritten, s2, TimerFires);
    TimerStartsFull(AsWritten, s2);
    var s4 := Step(AsWritten, s3, Edit(d2, pos, c));
    EditWithTimerSet(AsWritten, s3, d2, pos, c);
    var s5 := Step(AsWritten, s4, Respond(Failed));
    FullFailureDrops(AsWritten, s4);
    assert s5.inFlight == [Posted(s.posted + 2, d2)];
    var s6 := Step(AsWritten, s5, Edit(d3, pos, c));
    AppendedEdit(AsWritten, s5, d3, pos, c);
    RunSix(AsWritten, s, Edit(d1, pos, c), Respond(Failed), TimerFires, Edit(d2, pos, c), Respond(Failed), Edit(d3, pos, c));
  }

  /**
   * An edit with no timer set on an editor whose tree has not changed posts
   * a partial parse; the as-written editor never kills a worker that is not
   * running.
   */
  lemma AppendedEdit(p: Policy, s: State, doc: string, pos: int, c: Change)
    requires s.cleanup == Unset && FindPathToPos(pos, s.ast).Some?
    ensures var r := Step(p, s, Edit(doc, pos, c));
            && r.handler.PartialHandler? && r.handlerFor == s.posted
            && r.inFlight == (if s.running then [] else s.inFlight) + [Posted(s.posted, r.inFlight[|r.inFlight| - 1].text)]
  {
  }

  /** On the same events the corrected editor kills the first full parse and stays routed. */
  lemma CorrectedRoutes(s: State, pos: int, d1: string, d2: string, d3: string, c: Change)
    requires !s.running && s.inFlight == [] && s.cleanup == Unset
    requires FindPathToPos(pos, s.ast).Some?
    ensures var es := [Edit(d1, pos, c), Respond(Failed), TimerFires, Edit(d2, pos, c),
                       Respond(Failed), Edit(d3, pos, c)];
            var r := Run(Corrected, s, es);
            && r.handler.PartialHandler?
            && |r.inFlight| == 1
            && Routed(r)
  {
    var s1 := Step(Corrected, s, Edit(d1, pos, c));
    EditStartsPartial(Corrected, s, d1, pos, c);
    var s2 := Step(Corrected, s1, Respond(Failed));
    PartialFailureArms(Corrected, s1);
    var s3 := Step(Corrected, s2, TimerFires);
    TimerStartsFull(Corrected, s2);
    var s4 := Step(Corrected, s3, Edit(d2, pos, c));
    EditWithTimerSet(Corrected, s3, d2, pos, c);
    var s5 := Step(Corrected, s4, Respond(Failed));
    FullFailureDrops(Corrected, s4);
    assert s5.inFlight == [] && !s5.running && s5.cleanup == Unset && s5.ast == s.ast;
    EditStartsPartial(Corrected, s5, d3, pos, c);
    var s6 := Step(Corrected, s5, Edit(d3, pos, c));
    assert s6.handler.PartialHandler? && |s6.inFlight| == 1 && Routed(s6);
    RunSix(Corrected, s, Edit(d1, pos, c), Respond(Failed), TimerFires, Edit(d2, pos, c), Respond(Failed), Edit(d3, pos, c));
  }
}
