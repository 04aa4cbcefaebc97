/** The search through a list of cases, for any way of evaluating one: which cases are visited, in what
    state, and what comes out. */
module CaseSearch {
  import opened Prelude
  import opened Json

  // ----- messages -----

  /** The texts of warnings and errors: those of the handler itself, or one it passes on. */
  datatype Message =
    | MissingAnswer | MissingFeedback | UnreadableResult | RequestInvalid | ResponseInvalid | Raised
    | Said(text: string)

  function TextOf(m: Message): string {
    match m
    case MissingAnswer => "Missing answer field"
    case MissingFeedback => "Missing feedback field"
    case UnreadableResult => "failed to unmarshal response data"
    case RequestInvalid => "request validation error"
    case ResponseInvalid => "response validation error"
    case Raised => "An exception was raised while executing the evaluation function."
    case Said(text) => text
  }

  // ----- one case -----

  datatype CaseWarning = CaseWarning(message: Message, index: nat)

  datatype CaseResult = CaseResult(isCorrect: bool, feedback: string, warning: Option<CaseWarning>)

  const NOTHING := CaseResult(false, "", None)

  function Warn(message: Message, index: nat): CaseResult {
    CaseResult(false, "", Some(CaseWarning(message, index)))
  }

  /** Evaluation of a case: its result, the request that reached the runtime if any, and whether a panic was
      recovered. */
  datatype CaseEval = CaseEval(result: CaseResult, sent: Option<Object>, panicked: bool)

  /** How a case is visited: the params in force, given the cases as they are now; the evaluation of a case
      under such params; and what a recovered panic makes of the case. */
  datatype Visit = Visit(
    params: seq<Json> -> Object, run: (Object, Object, nat) -> CaseEval, mark: (Object, nat) -> Json)

  // ----- the sequence of cases -----

  /** The cases as they are when case k is about to be visited and none before it matched: recovered panics
      have changed the maps of earlier cases. */
  function CasesAt(v: Visit, cases: seq<Json>, k: nat): (r: seq<Json>)
    requires k <= |cases|
    ensures |r| == |cases| && r[k..] == cases[k..]
  {
    if k == 0 then cases
    else
      var before := CasesAt(v, cases, k - 1);
      assert before[k - 1..][0] == cases[k - 1];
      if cases[k - 1].Obj? && v.run(v.params(before), cases[k - 1].fields, k - 1).panicked
      then before[k - 1 := v.mark(cases[k - 1].fields, k - 1)]
      else before
  }

  function EvalAt(v: Visit, cases: seq<Json>, k: nat): CaseEval
    requires k < |cases| && cases[k].Obj?
  {
    v.run(v.params(CasesAt(v, cases, k)), cases[k].fields, k)
  }

  lemma CasesAtNext(v: Visit, cases: seq<Json>, k: nat)
    requires k < |cases| && cases[k].Obj?
    ensures var (before, e) := (CasesAt(v, cases, k), EvalAt(v, cases, k));
            && before[k] == cases[k]
            && CasesAt(v, cases, k + 1) == if e.panicked then before[k := v.mark(cases[k].fields, k)] else before
  {
    assert CasesAt(v, cases, k)[k..][0] == cases[k];
  }

  /** Every case's evaluation, on the assumption that the search gets that far; None for a non-object. */
  function Evals(v: Visit, cases: seq<Json>): (r: seq<Option<CaseEval>>)
    ensures |r| == |cases|
    ensures forall k :: 0 <= k < |cases| ==> r[k] == if cases[k].Obj? then Some(EvalAt(v, cases, k)) else None
  {
    seq(|cases|, k requires 0 <= k < |cases| => if cases[k].Obj? then Some(EvalAt(v, cases, k)) else None)
  }

  // ----- the search -----

  /** The warnings of the first n evaluations, in order. */
  function Warnings(evals: seq<Option<CaseEval>>, n: nat): seq<CaseWarning>
    requires n <= |evals|
  {
    if n == 0 then []
    else
      Warnings(evals, n - 1)
      + (if evals[n - 1].Some? then evals[n - 1].value.result.warning.ToSeq() else [])
  }

  /** The requests the first n evaluations hand to the runtime, in order. */
  function Requests(evals: seq<Option<CaseEval>>, n: nat): seq<Object>
    requires n <= |evals|
  {
    if n == 0 then []
    else
      Requests(evals, n - 1)
      + (if evals[n - 1].Some? then evals[n - 1].value.sent.ToSeq() else [])
  }

  predicate Correct(e: Option<CaseEval>) {
    e.Some? && e.value.result.isCorrect
  }

  /** Case k is visited: the cases before it are objects and none of them is correct. */
  ghost predicate Reached(evals: seq<Option<CaseEval>>, k: nat)
    requires k <= |evals|
  {
    forall j :: 0 <= j < k ==> evals[j].Some? && !Correct(evals[j])
  }

  /** What a search that does not crash returns. */
  datatype Search = Search(matches: seq<nat>, feedback: seq<string>, warnings: seq<CaseWarning>)

  /** How many cases the search visits: up to and including the match. */
  function Visited(s: Search, count: nat): nat {
    if s.matches == [] then count else s.matches[0] + 1
  }

  /** First-match correctness: no match, or the least index whose evaluation is correct with its feedback; and
      exactly the warnings of the cases visited. */
  ghost predicate FirstMatch(evals: seq<Option<CaseEval>>, s: Search) {
    var n := Visited(s, |evals|);
    && |s.matches| == |s.feedback| <= 1 && n <= |evals|
    && (s.matches == [] ==> Reached(evals, n))
    && (s.matches != [] ==>
          Reached(evals, n - 1) && Correct(evals[n - 1]) && s.feedback == [evals[n - 1].value.result.feedback])
    && s.warnings == Warnings(evals, n)
  }

  /** The search reaches case k, which is not an object, and panics. */
  ghost predicate StopsAt(evals: seq<Option<CaseEval>>, k: nat) {
    k < |evals| && evals[k].None? && Reached(evals, k)
  }

  ghost predicate HitsNonObject(evals: seq<Option<CaseEval>>) {
    exists k :: StopsAt(evals, k)
  }

  lemma NoMatchFound(evals: seq<Option<CaseEval>>)
    requires Reached(evals, |evals|)
    ensures FirstMatch(evals, Search([], [], Warnings(evals, |evals|))) && !HitsNonObject(evals)
  {
  }

  lemma MatchFound(evals: seq<Option<CaseEval>>, k: nat)
    requires k < |evals| && Reached(evals, k) && Correct(evals[k])
    ensures FirstMatch(evals, Search([k], [evals[k].value.result.feedback], Warnings(evals, k + 1)))
    ensures !HitsNonObject(evals)
  {
  }

  /** The search has gone through the first k cases without a match: what it has collected and sent so far,
      and the cases as they are now. */
  ghost predicate Passed(v: Visit, cases: seq<Json>, k: nat, warnings: seq<CaseWarning>, sent: seq<Object>,
                         now: seq<Json>)
  {
    && k <= |cases| && now == CasesAt(v, cases, k)
    && var evals := Evals(v, cases);
       Reached(evals, k) && warnings == Warnings(evals, k) && sent == Requests(evals, k)
  }

  /** The search has ended with `s`, after sending `sent`. */
  ghost predicate EndsWith(evals: seq<Option<CaseEval>>, s: Search, sent: seq<Object>) {
    FirstMatch(evals, s) && sent == Requests(evals, Visited(s, |evals|))
  }

  /** ... and these are the cases it leaves. */
  ghost predicate Searched(v: Visit, cases: seq<Json>, s: Search, sent: seq<Object>, now: seq<Json>) {
    EndsWith(Evals(v, cases), s, sent) && now == CasesAt(v, cases, Visited(s, |cases|))
  }

  lemma PassedNone(v: Visit, cases: seq<Json>)
    ensures Passed(v, cases, 0, [], [], cases)
  {
  }

  lemma PassedNext(v: Visit, cases: seq<Json>, k: nat, warnings: seq<CaseWarning>, sent: seq<Object>, now: seq<Json>)
    requires k < |cases| && cases[k].Obj? && Passed(v, cases, k, warnings, sent, now)
    ensures var e := EvalAt(v, cases, k);
            var (ws, rs) := (warnings + e.result.warning.ToSeq(), sent + e.sent.ToSeq());
            if e.result.isCorrect
            then
              && Searched(v, cases, Search([k], [e.result.feedback], ws), rs, CasesAt(v, cases, k + 1))
              && !HitsNonObject(Evals(v, cases))
            else Passed(v, cases, k + 1, ws, rs, CasesAt(v, cases, k + 1))
  {
    var evals := Evals(v, cases);
    assert evals[k] == Some(EvalAt(v, cases, k));
    if Correct(evals[k]) {
      MatchFound(evals, k);
    }
  }

  lemma PassedAll(v: Visit, cases: seq<Json>, k: nat, warnings: seq<CaseWarning>, sent: seq<Object>, now: seq<Json>)
    requires k == |cases| && Passed(v, cases, k, warnings, sent, now)
    ensures Searched(v, cases, Search([], [], warnings), sent, now) && !HitsNonObject(Evals(v, cases))
  {
    NoMatchFound(Evals(v, cases));
  }

  /** A search has exactly one outcome. */
  lemma FirstMatchIsUnique(evals: seq<Option<CaseEval>>, s: Search, t: Search)
    requires FirstMatch(evals, s) && FirstMatch(evals, t)
    ensures s == t && !HitsNonObject(evals)
  {
    var (n, m) := (Visited(s, |evals|), Visited(t, |evals|));
    assert !(m < n) && !(n < m);
  }

  /** Warnings come in increasing order of index, at most one per case, and each is that case's own. */
  lemma {:induction false} WarningsAreOrdered(evals: seq<Option<CaseEval>>, n: nat)
    requires n <= |evals|
    requires forall k :: 0 <= k < |evals| && evals[k].Some? && evals[k].value.result.warning.Some? ==>
               evals[k].value.result.warning.value.index == k
    ensures var ws := Warnings(evals, n);
            && (forall i :: 0 <= i < |ws| ==>
                  ws[i].index < n && evals[ws[i].index].Some? && evals[ws[i].index].value.result.warning == Some(ws[i]))
            && (forall i, j :: 0 <= i < j < |ws| ==> ws[i].index < ws[j].index)
            && (forall k :: 0 <= k < n && evals[k].Some? && evals[k].value.result.warning.Some? ==>
                  evals[k].value.result.warning.value in ws)
  {
    if n > 0 {
      WarningsAreOrdered(evals, n - 1);
    }
  }

  // ----- independence of the cases -----

  ghost predicate NoPanicBefore(v: Visit, cases: seq<Json>, k: nat)
    requires k <= |cases|
  {
    forall j :: 0 <= j < k && cases[j].Obj? ==> !EvalAt(v, cases, j).panicked
  }

  lemma {:induction false} NoPanicNoChange(v: Visit, cases: seq<Json>, k: nat)
    requires k <= |cases| && NoPanicBefore(v, cases, k)
    ensures CasesAt(v, cases, k) == cases
  {
    if k > 0 {
      NoPanicNoChange(v, cases, k - 1);
      assert cases[k - 1].Obj? ==> !EvalAt(v, cases, k - 1).panicked;
    }
  }

  /** Case independence. When no earlier evaluation panics, case k is evaluated as if it were alone: its
      request and result depend only on the original body, the original params and case k. */
  lemma CasesAreIndependent(v: Visit, cases: seq<Json>, k: nat)
    requires k < |cases| && cases[k].Obj? && NoPanicBefore(v, cases, k)
    ensures EvalAt(v, cases, k) == v.run(v.params(cases), cases[k].fields, k)
  {
    NoPanicNoChange(v, cases, k);
  }

  /** A recovered panic changes its case, unless the case already carries that very warning. */
  predicate Marked(v: Visit, cases: seq<Json>, j: nat)
    requires j < |cases| && cases[j].Obj?
  {
    v.mark(cases[j].fields, j) == cases[j]
  }

  lemma {:induction false} CasesAtPointwise(v: Visit, cases: seq<Json>, k: nat, j: nat)
    requires j < k <= |cases|
    ensures CasesAt(v, cases, k)[j] ==
            if cases[j].Obj? && EvalAt(v, cases, j).panicked then v.mark(cases[j].fields, j) else cases[j]
  {
    var before := CasesAt(v, cases, k - 1);
    if j < k - 1 {
      CasesAtPointwise(v, cases, k - 1, j);
    } else {
      assert before[k - 1..][0] == cases[k - 1];
    }
  }

  /** No earlier evaluation panicked on a case that did not already carry the panic's warning. */
  ghost predicate CasesUntouched(v: Visit, cases: seq<Json>, k: nat)
    requires k <= |cases|
  {
    forall j :: 0 <= j < k && cases[j].Obj? && EvalAt(v, cases, j).panicked ==> Marked(v, cases, j)
  }

  lemma CasesUntouchedIff(v: Visit, cases: seq<Json>, k: nat)
    requires k <= |cases|
    ensures CasesAt(v, cases, k) == cases <==> CasesUntouched(v, cases, k)
  {
    var now := CasesAt(v, cases, k);
    forall j | 0 <= j < k
      ensures now[j] == cases[j] <==>
              (cases[j].Obj? && EvalAt(v, cases, j).panicked ==> Marked(v, cases, j))
    {
      CasesAtPointwise(v, cases, k, j);
    }
    assert forall j :: k <= j < |cases| ==> now[j] == now[k..][j - k] == cases[k..][j - k] == cases[j];
    assert now == cases <==> forall j :: 0 <= j < k ==> now[j] == cases[j];
  }
}
