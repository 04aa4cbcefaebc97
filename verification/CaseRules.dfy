/** Case matching as functions: the schemas, the request built for one case, what evaluating it yields, and
    what the handler makes of the search. */
module CaseRules {
  import opened Prelude
  import opened Json
  import opened CaseSearch

  // ----- schemas of the eval command -----

  /** runtime/schema/request-eval.json */
  predicate RequestValid(o: Object) {
    && "response" in o && o["response"] != Null
    && "answer" in o && o["answer"] != Null
    && ("params" in o ==> o["params"].Obj?)
    && o.Keys <= {"response", "answer", "params"}
  }

  /** runtime/schema/response-eval.json */
  predicate ResponseValid(o: Object) {
    && o.Keys <= {"command", "result", "error"}
    && ("command" in o ==> o["command"] == Str("eval"))
    && ("result" in o ==> ResultValid(o["result"]))
    && ("error" in o ==> ErrorValid(o["error"]))
    && (if "result" in o then "command" in o else "error" in o)
  }

  predicate ResultValid(r: Json) {
    && r.Obj? && "is_correct" in r.fields && r.fields["is_correct"].Bool?
    && ("feedback" in r.fields ==> var f := r.fields["feedback"]; f.Obj? || f.Arr? || f.Str?)
  }

  predicate ErrorValid(e: Json) {
    && e.Obj? && "message" in e.fields && e.fields["message"].Str?
    && ("error_thrown" in e.fields ==> e.fields["error_thrown"].Obj? || e.fields["error_thrown"].Str?)
  }

  /** Exactly the requests that pass: a response and an answer that are not null, and params, if any, that are
      an object. */
  lemma RequestValidIff(o: Object)
    ensures RequestValid(o) <==>
            exists response, answer :: response != Null && answer != Null
              && (o == map["response" := response, "answer" := answer]
                  || exists p :: o == map["response" := response, "answer" := answer, "params" := Obj(p)])
  {
    if RequestValid(o) {
      var (response, answer) := (o["response"], o["answer"]);
      if "params" in o {
        assert o == map["response" := response, "answer" := answer, "params" := Obj(o["params"].fields)];
      } else {
        assert o == map["response" := response, "answer" := answer];
      }
    }
  }

  /** The usual responses: a result passes with the eval command only, and with a verdict; an error passes with a
      message. */
  lemma ResponsesThatPass(command: Json, result: Object, error: Object)
    ensures ResponseValid(map["command" := command, "result" := Obj(result)]) <==>
            && command == Str("eval") && "is_correct" in result && result["is_correct"].Bool?
            && ("feedback" in result ==> var f := result["feedback"]; !f.Null? && !f.Bool? && !f.Num?)
    ensures ResponseValid(map["error" := Obj(error)]) <==>
            && "message" in error && error["message"].Str?
            && ("error_thrown" in error ==> error["error_thrown"].Obj? || error["error_thrown"].Str?)
    ensures !ResponseValid(map["result" := Obj(result)]) && !ResponseValid(map["command" := command])
  {
    var (r, e) := (map["command" := command, "result" := Obj(result)], map["error" := Obj(error)]);
    assert r.Keys == {"command", "result"} && e.Keys == {"error"};
    assert r["command"] == command && r["result"] == Obj(result) && e["error"] == Obj(error);
  }

  // ----- sending -----

  /** What runtime.Handle does with a request: any function of it. NullAnswer is a nil response map, which a
      worker gives that answers null. */
  datatype Handled = Answered(body: Object) | NullAnswer | HandleError(message: string) | Panics

  type Evaluator = Object -> Handled

  /** The text of a request body, as json.Unmarshal into a map sees it. */
  datatype Text = Parsed(fields: Object) | NullText | Malformed(message: string)

  datatype Sent = Reply(body: Object) | SendError(message: Message) | SendPanics

  /** SendCommand once the request has been validated. The response schema constrains objects only, so it lets
      a nil map through; what its caller decodes from that is a map without entries. */
  function Forward(eval: Evaluator, o: Object): Sent {
    match eval(o)
    case HandleError(m) => SendError(Said(m))
    case Panics => SendPanics
    case NullAnswer => Reply(map[])
    case Answered(r) => if ResponseValid(r) then Reply(r) else SendError(ResponseInvalid)
  }

  /** SendCommand for eval, on a body that parses to `o`. */
  function SendParsed(eval: Evaluator, o: Object): Sent {
    if RequestValid(o) then Forward(eval, o) else SendError(RequestInvalid)
  }

  /** SendCommand for eval. A null body parses to a nil map; the schema constrains objects only, so it lets
      null through. */
  function SendText(eval: Evaluator, body: Text): Sent {
    match body
    case Malformed(m) => SendError(Said(m))
    case NullText => Forward(eval, map[])
    case Parsed(o) => SendParsed(eval, o)
  }

  /** The request that reaches the runtime, if the body gets that far. */
  function RequestOf(body: Text): Option<Object> {
    match body
    case Malformed(_) => None
    case NullText => Some(map[])
    case Parsed(o) => if RequestValid(o) then Some(o) else None
  }

  /** How a warning reads once it is part of a JSON value. */
  function WarningJson(w: CaseWarning): Json {
    Obj(map["message" := Str(TextOf(w.message)), "case" := Num(w.index as real)])
  }

  function CaseParams(c: Object): Object {
    if "params" in c && c["params"].Obj? then c["params"].fields else map[]
  }

  /** The request of a case: the body with the case's answer, and with the case's params laid over the
      top-level ones. */
  function CaseRequest(body: Object, params: Object, c: Object): Object
    requires "answer" in c
  {
    body["answer" := c["answer"]]["params" := Obj(params + CaseParams(c))]
  }

  /** The merge is right-biased, and nothing else of the body changes: every entry of the case's params, if these
      are an object, has its own value in the request, and every other top-level one is kept. */
  lemma CaseRequestMerges(body: Object, params: Object, c: Object)
    requires "answer" in c
    ensures var r := CaseRequest(body, params, c);
            && r.Keys == body.Keys + {"answer", "params"} && r["answer"] == c["answer"]
            && (forall k :: k in body && k != "answer" && k != "params" ==> r[k] == body[k])
            && r["params"].Obj?
    ensures var merged := CaseRequest(body, params, c)["params"].fields;
            if "params" in c && c["params"].Obj? then
              var own := c["params"].fields;
              && merged.Keys == params.Keys + own.Keys
              && (forall k :: k in own ==> merged[k] == own[k])
              && (forall k :: k in params && k !in own ==> merged[k] == params[k])
            else merged == params
  {
    var inner := body["answer" := c["answer"]];
    assert inner.Keys == body.Keys + {"answer"};
    assert CaseRequest(body, params, c).Keys == inner.Keys + {"params"};
  }

  function ReadResult(body: Object, index: nat): CaseResult {
    if "result" !in body || !body["result"].Obj? then Warn(UnreadableResult, index)
    else
      var r := body["result"].fields;
      CaseResult("is_correct" in r && r["is_correct"] == Bool(true),
                 if "feedback" in r && r["feedback"].Str? then r["feedback"].text else "", None)
  }

  /** EvaluateCase. The result of a recovered panic is the zero CaseResult, without a warning. */
  function Evaluate(eval: Evaluator, body: Text, params: Object, c: Object, index: nat): (e: CaseEval)
    ensures e.result.warning.Some? ==> e.result.warning.value.index == index && !e.result.isCorrect && !e.panicked
    ensures e.panicked ==> e.result == NOTHING
  {
    if "answer" !in c then CaseEval(Warn(MissingAnswer, index), None, false)
    else if "feedback" !in c then CaseEval(Warn(MissingFeedback, index), None, false)
    else match body
      case Malformed(m) => CaseEval(Warn(Said(m), index), None, false)
      case NullText => CaseEval(NOTHING, None, true) // assignment to an entry of a nil map
      case Parsed(fields) =>
        var req := CaseRequest(fields, params, c);
        var sent := RequestOf(Parsed(req));
        match SendParsed(eval, req)
        case SendError(m) => CaseEval(Warn(m, index), sent, false)
        case SendPanics => CaseEval(NOTHING, sent, true)
        case Reply(r) => CaseEval(ReadResult(r, index), sent, false)
  }

  /** The entry the recover branch writes into the case. */
  function MarkPanic(c: Object, index: nat): Json {
    Obj(c["warning" := WarningJson(CaseWarning(Raised, index))])
  }

  /** For a body that has passed validation, a case's request fails it only if the case's answer is null. */
  lemma CaseRequestValidIff(body: Object, params: Object, c: Object)
    requires RequestValid(body) && "answer" in c
    ensures RequestValid(CaseRequest(body, params, c)) <==> c["answer"] != Null
  {
  }

  /** The case's request reached the runtime and the answer to it is valid and carries a result. */
  predicate Answers(eval: Evaluator, body: Text, params: Object, c: Object) {
    && body.Parsed? && "answer" in c && "feedback" in c
    && var req := CaseRequest(body.fields, params, c);
       && RequestValid(req) && eval(req).Answered?
       && ResponseValid(eval(req).body) && "result" in eval(req).body
  }

  /** A case counts as correct exactly on the runtime's word, and then carries the feedback of that answer if
      it is text. */
  lemma CorrectIffRuntimeSaysSo(eval: Evaluator, body: Text, params: Object, c: Object, index: nat)
    ensures var result := Evaluate(eval, body, params, c, index).result;
            && (result.isCorrect ==> Answers(eval, body, params, c))
            && (Answers(eval, body, params, c) ==>
                  var r := eval(CaseRequest(body.fields, params, c)).body["result"].fields;
                  && (result.isCorrect <==> r["is_correct"] == Bool(true))
                  && result.feedback == if "feedback" in r && r["feedback"].Str? then r["feedback"].text else "")
  {
    if Answers(eval, body, params, c) {
      assert ResultValid(eval(CaseRequest(body.fields, params, c)).body["result"]);
    }
  }

  /** A case yields a warning exactly if the runtime gave no result for it and nothing panicked; the two
      missing-field warnings say just what they mean. */
  lemma WarnsIff(eval: Evaluator, body: Text, params: Object, c: Object, index: nat)
    ensures var e := Evaluate(eval, body, params, c, index);
            && (e.result.warning.Some? <==> !e.panicked && !Answers(eval, body, params, c))
            && (e.result.warning == Some(CaseWarning(MissingAnswer, index)) <==> "answer" !in c)
            && (e.result.warning == Some(CaseWarning(MissingFeedback, index)) <==> "answer" in c && "feedback" !in c)
            && (e.sent.Some? ==> body.Parsed? && "answer" in c && e.sent.value == CaseRequest(body.fields, params, c))
            && (Answers(eval, body, params, c) ==> e.sent.Some?)
  {
  }

  /** What a case's warning says, told from the case and the runtime's answer to its request. */
  lemma WarningTexts(eval: Evaluator, body: Object, params: Object, c: Object, index: nat)
    ensures var warning := Evaluate(eval, Parsed(body), params, c, index).result.warning;
            var text := if warning.Some? then Some(TextOf(warning.value.message)) else None;
            if "answer" !in c then text == Some("Missing answer field")
            else if "feedback" !in c then text == Some("Missing feedback field")
            else
              var req := CaseRequest(body, params, c);
              if !RequestValid(req) then text == Some("request validation error")
              else match eval(req)
                case HandleError(m) => text == Some(m)
                case Panics => text == None
                case NullAnswer => text == Some("failed to unmarshal response data")
                case Answered(r) =>
                  if !ResponseValid(r) then text == Some("response validation error")
                  else text == if "result" in r then None else Some("failed to unmarshal response data")
  {
  }

  function ParamsWith(top: Object, cases: seq<Json>): Object {
    top["cases" := Arr(cases)]
  }

  /** How the handler visits a case. The cases are the maps inside params["cases"], so the params in force
      always hold the cases as they are now, warnings of recovered panics included. */
  function VisitOf(eval: Evaluator, body: Text, top: Object): Visit {
    Visit(cases => ParamsWith(top, cases),
          (params: Object, c: Object, index: nat) => Evaluate(eval, body, params, c, index),
          (c: Object, index: nat) => MarkPanic(c, index))
  }

  /** What the runtime is sent for case k of a request, told from the request: its body with the case's answer and
      with the params of the case over those of the request, in which the cases are as they are now. */
  lemma SentForCase(eval: Evaluator, body: Object, top: Object, cases: seq<Json>, k: nat)
    requires k < |cases| && cases[k].Obj?
    requires EvalAt(VisitOf(eval, Parsed(body), top), cases, k).sent.Some?
    ensures var c := cases[k].fields;
            var req := EvalAt(VisitOf(eval, Parsed(body), top), cases, k).sent.value;
            && "answer" in c && "feedback" in c
            && req.Keys == body.Keys + {"answer", "params"} && req["answer"] == c["answer"] && req["params"].Obj?
            && (forall k :: k in body && k != "answer" && k != "params" ==> req[k] == body[k])
            && var own := if "params" in c && c["params"].Obj? then c["params"].fields else map[];
               var merged := req["params"].fields;
               && merged.Keys == top.Keys + own.Keys + {"cases"}
               && (forall k :: k in own ==> merged[k] == own[k])
               && (forall k :: k in top && k !in own && k != "cases" ==> merged[k] == top[k])
               && ("cases" !in own ==> merged["cases"] == Arr(CasesAt(VisitOf(eval, Parsed(body), top), cases, k)))
  {
    var v := VisitOf(eval, Parsed(body), top);
    var now := CasesAt(v, cases, k);
    var params := ParamsWith(top, now);
    assert EvalAt(v, cases, k) == Evaluate(eval, Parsed(body), params, cases[k].fields, k);
    assert params.Keys == top.Keys + {"cases"};
    CaseRequestMerges(body, params, cases[k].fields);
  }

  /** What a recovered panic writes into its case, as later cases see it. */
  lemma PanicIsMarked(eval: Evaluator, body: Text, top: Object, cases: seq<Json>, k: nat, j: nat)
    requires j < k <= |cases| && cases[j].Obj?
    ensures var v := VisitOf(eval, body, top);
            CasesAt(v, cases, k)[j] ==
            if !EvalAt(v, cases, j).panicked then cases[j]
            else
              var text := "An exception was raised while executing the evaluation function.";
              Obj(cases[j].fields["warning" := Obj(map["message" := Str(text), "case" := Num(j as real)])])
  {
    CasesAtPointwise(VisitOf(eval, body, top), cases, k, j);
  }

  // ----- the result -----

  /** The case's params hold override_eval_feedback: true. */
  predicate AsksForBoth(c: Object) {
    && "params" in c && c["params"].Obj? && "override_eval_feedback" in c["params"].fields
    && c["params"].fields["override_eval_feedback"] == Bool(true)
  }

  /** An unrecovered panic in a type assertion of the handler leaves the request without a result. */
  datatype Outcome<+T> = Done(value: T) | Crashed

  predicate Overrides(c: Object) {
    "override_eval_feedback" in CaseParams(c) && CaseParams(c)["override_eval_feedback"] == Bool(true)
  }

  /** What GetCaseFeedback makes of the matched case: its index as id and, on request, the feedback of its
      evaluation appended to its own. */
  function MatchEntry(c: Object, m: nat, evalFeedback: string): Outcome<Object>
    requires "feedback" in c
  {
    var entry := c["id" := Num(m as real)];
    if !Overrides(c) then Done(entry)
    else if !c["feedback"].Str? then Crashed
    else Done(entry["feedback" := Str(c["feedback"].text + "<br />" + evalFeedback)])
  }

  /** int(mark) == 1 */
  predicate MarksCorrect(mark: real) {
    1.0 <= mark < 2.0
  }

  function AddWarnings(result: Object, warnings: seq<CaseWarning>): Object {
    if warnings == [] then result
    else result["warnings" := Arr(seq(|warnings|, i requires 0 <= i < |warnings| => WarningJson(warnings[i])))]
  }

  /** What ProcessEval writes for a matched entry. */
  function AddMatch(result: Object, entry: Object): Object
    requires "feedback" in entry && "id" in entry
  {
    var r := result["feedback" := entry["feedback"]]["matched_case" := entry["id"]];
    if "mark" in entry && entry["mark"].Num? then r["is_correct" := Bool(MarksCorrect(entry["mark"].number))] else r
  }

  /** The cases of a request, if it has a list of them. */
  function CasesOf(o: Object): Option<seq<Json>> {
    if "params" in o && o["params"].Obj? && "cases" in o["params"].fields && o["params"].fields["cases"].Arr?
    then Some(o["params"].fields["cases"].items)
    else None
  }

  /** Cases are looked at only when the runtime called the response incorrect and there are some. */
  predicate NeedsCases(o: Object, result: Object) {
    "is_correct" in result && result["is_correct"] == Bool(false) && CasesOf(o).Some? && CasesOf(o).value != []
  }

  /** The result after a completed search. */
  ghost predicate ResultAfter(cases: seq<Json>, s: Search, before: Object, after: Outcome<Object>) {
    if s.matches == [] then after == Done(AddWarnings(before, s.warnings))
    else
      && s.matches[0] < |cases| && s.feedback != []
      && cases[s.matches[0]].Obj? && "feedback" in cases[s.matches[0]].fields
      && var entry := MatchEntry(cases[s.matches[0]].fields, s.matches[0], s.feedback[0]);
         after == if entry.Crashed? then Crashed else Done(AddMatch(AddWarnings(before, s.warnings), entry.value))
  }

  /** Every case's evaluation, for the cases of request `o`. */
  function EvalsOf(eval: Evaluator, body: Text, o: Object): seq<Option<CaseEval>>
    requires CasesOf(o).Some?
  {
    Evals(VisitOf(eval, body, o["params"].fields), CasesOf(o).value)
  }

  /** ProcessEval as a whole: the result it leaves, and the requests it sends. */
  ghost predicate Processed(eval: Evaluator, body: Text, o: Object, before: Object, after: Outcome<Object>,
                            sent: seq<Object>)
  {
    if !NeedsCases(o, before) then after == Done(before) && sent == []
    else
      var evals := EvalsOf(eval, body, o);
      if HitsNonObject(evals) then after.Crashed? && exists k :: StopsAt(evals, k) && sent == Requests(evals, k)
      else exists s :: EndsWith(evals, s, sent) && ResultAfter(CasesOf(o).value, s, before, after)
  }

  /** A correct case is an object that has an answer and a feedback, and its evaluation did not panic. */
  lemma CorrectHasFeedback(eval: Evaluator, body: Text, top: Object, cases: seq<Json>, k: nat)
    requires k < |cases| && Correct(Evals(VisitOf(eval, body, top), cases)[k])
    ensures cases[k].Obj? && "answer" in cases[k].fields && "feedback" in cases[k].fields
    ensures !EvalAt(VisitOf(eval, body, top), cases, k).panicked
    ensures CasesAt(VisitOf(eval, body, top), cases, k + 1)[k] == cases[k]
  {
    assert EvalAt(VisitOf(eval, body, top), cases, k).result.isCorrect;
    assert CasesAt(VisitOf(eval, body, top), cases, k)[k..][0] == cases[k];
  }

  /** The list of warnings of a result: one {message, case} for each, in order; without any it is as it was. */
  ghost predicate Lists(before: Object, warnings: seq<CaseWarning>, after: Object) {
    if warnings == [] then
      && ("warnings" in after <==> "warnings" in before)
      && ("warnings" in before ==> after["warnings"] == before["warnings"])
    else
      && "warnings" in after && after["warnings"].Arr? && |after["warnings"].items| == |warnings|
      && forall i :: 0 <= i < |warnings| ==>
           after["warnings"].items[i] ==
           Obj(map["message" := Str(TextOf(warnings[i].message)), "case" := Num(warnings[i].index as real)])
  }

  lemma AddWarningsMeans(before: Object, warnings: seq<CaseWarning>)
    ensures Lists(before, warnings, AddWarnings(before, warnings))
    ensures AddWarnings(before, warnings) - {"warnings"} == before - {"warnings"}
  {
  }

  lemma AddMatchMeans(before: Object, warnings: seq<CaseWarning>, c: Object, m: nat, evalFeedback: string,
                      after: Object)
    requires "feedback" in c && MatchEntry(c, m, evalFeedback).Done?
    requires after == AddMatch(AddWarnings(before, warnings), MatchEntry(c, m, evalFeedback).value)
    requires "is_correct" in before && before["is_correct"] == Bool(false)
    ensures forall k :: k !in {"warnings", "feedback", "matched_case", "is_correct"} ==>
              (k in after <==> k in before) && (k in before ==> after[k] == before[k])
    ensures Lists(before, warnings, after)
    ensures "matched_case" in after && after["matched_case"] == Num(m as real)
    ensures "feedback" in after
    ensures if AsksForBoth(c) then
              c["feedback"].Str? && after["feedback"] == Str(c["feedback"].text + "<br />" + evalFeedback)
            else after["feedback"] == c["feedback"]
    ensures "is_correct" in after && after["is_correct"].Bool?
    ensures after["is_correct"] == Bool(true) <==> "mark" in c && c["mark"].Num? && c["mark"].number.Floor == 1
  {
  }

  /** Cases are searched exactly if the runtime's verdict is incorrect and params.cases is a list that is not
      empty; otherwise nothing is sent and the result stays. */
  lemma CasesAreSearchedIff(eval: Evaluator, body: Text, o: Object, before: Object, after: Outcome<Object>,
                            sent: seq<Object>)
    requires Processed(eval, body, o, before, after, sent)
    ensures NeedsCases(o, before) <==>
            && "is_correct" in before && before["is_correct"] == Bool(false)
            && "params" in o && o["params"].Obj? && "cases" in o["params"].fields
            && o["params"].fields["cases"].Arr? && o["params"].fields["cases"].items != []
    ensures !NeedsCases(o, before) ==> after == Done(before) && sent == []
  {
  }

  /** A request with a list of cases, and an incorrect verdict on it. */
  ghost predicate Incorrect(o: Object, cases: seq<Json>, before: Object) {
    && "params" in o && o["params"].Obj? && "cases" in o["params"].fields
    && o["params"].fields["cases"] == Arr(cases) && cases != []
    && "is_correct" in before && before["is_correct"] == Bool(false)
  }

  /** What reaches the client when no case decides: the runtime's own result, with the warnings of all cases. */
  lemma UnmatchedKeepsVerdict(eval: Evaluator, body: Text, o: Object, cases: seq<Json>, before: Object,
                              after: Object, sent: seq<Object>)
    requires Incorrect(o, cases, before) && Processed(eval, body, o, before, Done(after), sent)
    requires Reached(Evals(VisitOf(eval, body, o["params"].fields), cases), |cases|)
    ensures after - {"warnings"} == before - {"warnings"}
    ensures Lists(before, Warnings(Evals(VisitOf(eval, body, o["params"].fields), cases), |cases|), after)
    ensures sent == Requests(Evals(VisitOf(eval, body, o["params"].fields), cases), |cases|)
  {
    hide VisitOf, AddWarnings, Lists, Reached, Warnings, Requests;
    var evals := EvalsOf(eval, body, o);
    NoMatchFound(evals);
    AddWarningsMeans(before, Warnings(evals, |evals|));
    ProcessedIsResultAfter(eval, body, o, before, Done(after), sent, Search([], [], Warnings(evals, |evals|)));
  }

  lemma ProcessedIsResultAfter(eval: Evaluator, body: Text, o: Object, before: Object, after: Outcome<Object>,
                               sent: seq<Object>, s: Search)
    requires NeedsCases(o, before) && Processed(eval, body, o, before, after, sent)
    requires FirstMatch(EvalsOf(eval, body, o), s)
    ensures ResultAfter(CasesOf(o).value, s, before, after) && EndsWith(EvalsOf(eval, body, o), s, sent)
  {
    hide VisitOf;
    var evals := EvalsOf(eval, body, o);
    FirstMatchIsUnique(evals, s, s);
    var t :| EndsWith(evals, t, sent) && ResultAfter(CasesOf(o).value, t, before, after);
    FirstMatchIsUnique(evals, s, t);
  }

  /** What reaches the client when the runtime said incorrect and case m is the first correct one, for every
      request and evaluator: only warnings, feedback, matched_case and is_correct can change; matched_case is
      m; the feedback is that of the case, with its evaluation's feedback appended if the case's params hold
      override_eval_feedback: true; the result is correct exactly if the case has a mark whose integer part is
      1; and the warnings and the requests sent are those of the cases up to m. */
  lemma FirstMatchDecides(eval: Evaluator, body: Text, o: Object, cases: seq<Json>, before: Object, after: Object,
                          sent: seq<Object>, m: nat)
    requires Incorrect(o, cases, before) && Processed(eval, body, o, before, Done(after), sent)
    requires var evals := Evals(VisitOf(eval, body, o["params"].fields), cases);
             m < |evals| && Reached(evals, m) && Correct(evals[m])
    ensures cases[m].Obj? && "feedback" in cases[m].fields
    ensures forall k :: k !in {"warnings", "feedback", "matched_case", "is_correct"} ==>
              (k in after <==> k in before) && (k in before ==> after[k] == before[k])
    ensures "matched_case" in after && after["matched_case"] == Num(m as real)
    ensures var c := cases[m].fields;
            var said := EvalAt(VisitOf(eval, body, o["params"].fields), cases, m).result.feedback;
            && "feedback" in after
            && if AsksForBoth(c) then
                 c["feedback"].Str? && after["feedback"] == Str(c["feedback"].text + "<br />" + said)
               else after["feedback"] == c["feedback"]
    ensures var c := cases[m].fields;
            && "is_correct" in after && after["is_correct"].Bool?
            && (after["is_correct"] == Bool(true) <==> "mark" in c && c["mark"].Num? && c["mark"].number.Floor == 1)
    ensures Lists(before, Warnings(Evals(VisitOf(eval, body, o["params"].fields), cases), m + 1), after)
    ensures sent == Requests(Evals(VisitOf(eval, body, o["params"].fields), cases), m + 1)
  {
    hide VisitOf, AddWarnings, AddMatch, Lists, Reached, Warnings, Requests, Processed;
    var evals := EvalsOf(eval, body, o);
    var s := Search([m], [evals[m].value.result.feedback], Warnings(evals, m + 1));
    MatchFound(evals, m);
    ProcessedIsResultAfter(eval, body, o, before, Done(after), sent, s);
    AddMatchMeans(before, s.warnings, cases[m].fields, m, s.feedback[0], after);
  }

  // ----- independence of the requests -----

  /** Exactly when the request of case k is the independent one: if its own params replace "cases", or if no
      earlier evaluation panicked on a case that did not already carry the panic's warning. */
  lemma RequestIsIndependentIff(v: Visit, body: Object, top: Object, cases: seq<Json>, k: nat)
    requires k < |cases| && cases[k].Obj? && "answer" in cases[k].fields
    ensures var c := cases[k].fields;
            CaseRequest(body, ParamsWith(top, CasesAt(v, cases, k)), c) == CaseRequest(body, ParamsWith(top, cases), c)
            <==> ("params" in c && c["params"].Obj? && "cases" in c["params"].fields) || CasesUntouched(v, cases, k)
  {
    var c := cases[k].fields;
    var now := CasesAt(v, cases, k);
    CasesUntouchedIff(v, cases, k);
    assert ParamsWith(top, now) - {"cases"} == ParamsWith(top, cases) - {"cases"};
    MergeHidesIff(ParamsWith(top, now), ParamsWith(top, cases), CaseParams(c), "cases");
    RequestsEqualIff(body, ParamsWith(top, now), ParamsWith(top, cases), c);
  }

  lemma MergeHidesIff(a: Object, b: Object, over: Object, key: string)
    requires key in a && key in b && a - {key} == b - {key}
    ensures a + over == b + over <==> key in over || a[key] == b[key]
  {
    assert forall k :: k in a && k != key ==> k in a - {key} && k in b - {key} && a[k] == b[k];
    assert forall k :: k in b && k != key ==> k in b - {key} && k in a - {key};
    if key in over || a[key] == b[key] {
      assert (a + over).Keys == (b + over).Keys;
    } else {
      assert (a + over)[key] != (b + over)[key];
    }
  }

  lemma RequestsEqualIff(body: Object, a: Object, b: Object, c: Object)
    requires "answer" in c
    ensures CaseRequest(body, a, c) == CaseRequest(body, b, c) <==> a + CaseParams(c) == b + CaseParams(c)
  {
    if CaseRequest(body, a, c) == CaseRequest(body, b, c) {
      assert CaseRequest(body, a, c)["params"] == Obj(a + CaseParams(c));
      assert CaseRequest(body, b, c)["params"] == Obj(b + CaseParams(c));
    }
  }
}
