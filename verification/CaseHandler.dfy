/** The eval command of RuntimeHandler: ProcessEval and the case search, with the maps they rewrite in place. */
module CaseHandler {
  import opened Prelude
  import opened Json
  import opened CaseRules
  import opened CaseSearch

  /** params of the request body. Its "cases" entry is the slice whose maps the search and ProcessEval write
      into, so what params holds under "cases" is always the current content of that slice. */
  class EvalParams {
    const top: Object
    var cases: seq<Json>

    constructor (top: Object, cases: seq<Json>)
      ensures this.top == top && this.cases == cases
    {
      this.top, this.cases := top, cases;
    }

    function Now(): Object
      reads this
    {
      ParamsWith(top, cases)
    }
  }

  /** The "result" map of a response, rewritten in place. */
  class ResultMap {
    var fields: Object

    constructor (fields: Object)
      ensures this.fields == fields
    {
      this.fields := fields;
    }
  }

  datatype Match = Match(found: Option<Object>, warnings: seq<CaseWarning>)

  /** What handle returns for an eval request: a response, an error, or neither when the runtime's valid
      response carries no result; a panic leaves nothing. */
  datatype HandleResult = Replied(body: Object) | Rejected(message: Message) | EmptyReply | NoReply

  class RuntimeHandler {
    const eval: Evaluator
    /** Every request handed to runtime.Handle, in order. */
    ghost var sent: seq<Object>

    constructor (eval: Evaluator)
      ensures this.eval == eval && sent == []
    {
      this.eval, sent := eval, [];
    }

    method SendCommand(body: Text) returns (r: Sent)
      modifies this
      ensures r == SendText(eval, body)
      ensures sent == old(sent) + RequestOf(body).ToSeq()
    {
      var reqData: Object := map[];
      match body {
        case Malformed(m) => return SendError(Said(m));
        case NullText =>
        case Parsed(o) =>
          if !RequestValid(o) {
            return SendError(RequestInvalid);
          }
          reqData := o;
      }
      sent := sent + [reqData];
      match eval(reqData) {
        case HandleError(m) => return SendError(Said(m));
        case Panics => return SendPanics;
        case NullAnswer => return Reply(map[]);
        case Answered(resp) => return if ResponseValid(resp) then Reply(resp) else SendError(ResponseInvalid);
      }
    }

    method EvaluateCase(p: EvalParams, index: nat, body: Text) returns (result: CaseResult)
      requires index < |p.cases| && p.cases[index].Obj?
      modifies this, p`cases
      ensures var e := Evaluate(eval, body, old(p.Now()), old(p.cases)[index].fields, index);
              && result == e.result
              && p.cases == (if e.panicked then old(p.cases)[index := MarkPanic(old(p.cases)[index].fields, index)]
                             else old(p.cases))
              && sent == old(sent) + e.sent.ToSeq()
    {
      var c := p.cases[index].fields;
      if "answer" !in c {
        return Warn(MissingAnswer, index);
      }
      if "feedback" !in c {
        return Warn(MissingFeedback, index);
      }
      var combinedParams := p.Now();
      if "params" in c && c["params"].Obj? {
        combinedParams := combinedParams + c["params"].fields;
      }
      match body {
        case Malformed(m) => return Warn(Said(m), index);
        case NullText =>
          p.cases := p.cases[index := MarkPanic(c, index)];
          return NOTHING;
        case Parsed(fields) =>
          var reqBody := fields["answer" := c["answer"]];
          reqBody := reqBody["params" := Obj(combinedParams)];
          assert combinedParams == p.Now() + CaseParams(c);
          var r := SendCommand(Parsed(reqBody));
          match r {
            case SendError(m) => return Warn(m, index);
            case SendPanics =>
              p.cases := p.cases[index := MarkPanic(c, index)];
              return NOTHING;
            case Reply(resp) => return ReadResult(resp, index);
          }
      }
    }

    /** EvaluateCase as the search calls it, with the cases as earlier visits left them. */
    method VisitCase(p: EvalParams, index: nat, body: Text, ghost start: seq<Json>) returns (result: CaseResult)
      requires index < |start| && start[index].Obj? && p.cases == CasesAt(VisitOf(eval, body, p.top), start, index)
      requires p.cases[index].Obj?
      modifies this, p`cases
      ensures result == EvalAt(VisitOf(eval, body, p.top), start, index).result
      ensures sent == old(sent) + EvalAt(VisitOf(eval, body, p.top), start, index).sent.ToSeq()
      ensures p.cases == CasesAt(VisitOf(eval, body, p.top), start, index + 1)
    {
      CasesAtNext(VisitOf(eval, body, p.top), start, index);
      result := EvaluateCase(p, index, body);
    }

    /** The least index whose evaluation is correct, if any, is the only match; the warnings and the requests
        are those of the cases visited, in order; nothing after the match is evaluated; and the search crashes
        exactly when it reaches a case that is not an object. */
    method FindFirstMatchingCase(p: EvalParams, body: Text) returns (r: Outcome<Search>, ghost requests: seq<Object>)
      modifies this, p`cases
      ensures sent == old(sent) + requests
      ensures r.Crashed? <==> HitsNonObject(Evals(VisitOf(eval, body, p.top), old(p.cases)))
      ensures r.Crashed? ==>
                var evals := Evals(VisitOf(eval, body, p.top), old(p.cases));
                exists k :: StopsAt(evals, k) && requests == Requests(evals, k)
      ensures r.Done? ==> Searched(VisitOf(eval, body, p.top), old(p.cases), r.value, requests, p.cases)
    {
      hide VisitOf, CasesAt, EvalAt, Reached, Warnings, Requests, Searched;
      ghost var (v, cases) := (VisitOf(eval, body, p.top), p.cases);
      PassedNone(v, cases);
      var matches: seq<nat>, feedback: seq<string>, warnings: seq<CaseWarning> := [], [], [];
      requests := [];
      var index := 0;
      while index < |p.cases|
        invariant |p.cases| == |cases| && Passed(v, cases, index, warnings, requests, p.cases)
        invariant matches == [] && feedback == []
        invariant sent == old(sent) + requests
        decreases |cases| - index
      {
        assert p.cases[index..][0] == cases[index];
        if !p.cases[index].Obj? {
          assert StopsAt(Evals(v, cases), index);
          return Crashed, requests;
        }
        PassedNext(v, cases, index, warnings, requests, p.cases);
        var result := VisitCase(p, index, body, cases);
        requests := requests + EvalAt(v, cases, index).sent.ToSeq();
        ghost var before := warnings;
        if result.warning.Some? {
          warnings := warnings + [result.warning.value];
        }
        assert warnings == before + result.warning.ToSeq();
        if result.isCorrect {
          matches, feedback := matches + [index], feedback + [result.feedback];
          assert matches == [index] && feedback == [result.feedback];
          return Done(Search(matches, feedback, warnings)), requests;
        }
        index := index + 1;
      }
      PassedAll(v, cases, index, warnings, requests, p.cases);
      return Done(Search(matches, feedback, warnings)), requests;
    }

    method GetCaseFeedback(p: EvalParams, body: Text) returns (r: Outcome<Match>, ghost requests: seq<Object>)
      modifies this, p`cases
      ensures sent == old(sent) + requests
      ensures var evals := Evals(VisitOf(eval, body, p.top), old(p.cases));
              if HitsNonObject(evals) then r.Crashed? && exists k :: StopsAt(evals, k) && requests == Requests(evals, k)
              else exists s :: EndsWith(evals, s, requests) && Feedback(old(p.cases), s, r)
    {
      hide VisitOf;
      ghost var (top, cases) := (p.top, p.cases);
      var search;
      search, requests := FindFirstMatchingCase(p, body);
      if search.Crashed? {
        return Crashed, requests;
      }
      var s := search.value;
      if s.matches == [] {
        r := Done(Match(None, s.warnings));
        assert Feedback(cases, s, r);
        return;
      }
      var m := s.matches[0];
      CorrectHasFeedback(eval, body, top, cases, m);
      r := EnterMatch(p, m, s);
      assert Feedback(cases, s, r);
    }

    /** The part of GetCaseFeedback after a match: it rewrites the matched case in place. */
    method EnterMatch(p: EvalParams, m: nat, s: Search) returns (r: Outcome<Match>)
      requires m < |p.cases| && p.cases[m].Obj? && "feedback" in p.cases[m].fields && s.feedback != []
      modifies p`cases
      ensures var entry := MatchEntry(old(p.cases)[m].fields, m, s.feedback[0]);
              && r == (if entry.Crashed? then Crashed else Done(Match(Some(entry.value), s.warnings)))
              && (entry.Done? ==> p.cases == old(p.cases)[m := Obj(entry.value)])
    {
      var match_ := p.cases[m].fields["id" := Num(m as real)];
      p.cases := p.cases[m := Obj(match_)];
      assert CaseParams(match_) == CaseParams(old(p.cases)[m].fields);
      if Overrides(match_) {
        if !match_["feedback"].Str? {
          return Crashed;
        }
        match_ := match_["feedback" := Str(match_["feedback"].text + "<br />" + s.feedback[0])];
        p.cases := p.cases[m := Obj(match_)];
      }
      // |s.matches| <= 1: the warning about several matches is never added.
      return Done(Match(Some(match_), s.warnings));
    }

    /** `body` is the request text that parsed to `reqBody`. */
    method ProcessEval(reqBody: Object, result: ResultMap, body: Text) returns (ok: bool, ghost requests: seq<Object>)
      modifies this, result
      ensures sent == old(sent) + requests
      ensures Processed(eval, body, reqBody, old(result.fields), if ok then Done(result.fields) else Crashed, requests)
    {
      hide VisitOf;
      if !("is_correct" in result.fields && result.fields["is_correct"] == Bool(false)) {
        return true, [];
      }
      var cases := CasesOf(reqBody);
      if cases.None? || cases.value == [] {
        return true, [];
      }
      var p := new EvalParams(reqBody["params"].fields, cases.value);
      var m;
      m, requests := GetCaseFeedback(p, body);
      if m.Crashed? {
        return false, requests;
      }
      AddToResult(result, m.value);
      return true, requests;
    }

    /** The part of ProcessEval after the search. */
    method AddToResult(result: ResultMap, m: Match)
      requires m.found.Some? ==> "feedback" in m.found.value && "id" in m.found.value
      modifies result
      ensures var r := AddWarnings(old(result.fields), m.warnings);
              result.fields == if m.found.Some? then AddMatch(r, m.found.value) else r
    {
      var Match(found, warnings) := m;
      if warnings != [] {
        var items := seq(|warnings|, i requires 0 <= i < |warnings| => WarningJson(warnings[i]));
        result.fields := result.fields["warnings" := Arr(items)];
      }
      if found.Some? {
        result.fields := result.fields["feedback" := found.value["feedback"]];
        result.fields := result.fields["matched_case" := found.value["id"]];
        if "mark" in found.value && found.value["mark"].Num? {
          result.fields := result.fields["is_correct" := Bool(MarksCorrect(found.value["mark"].number))];
        }
      }
    }

    /** handle for the eval command, after the method and the command were accepted: the request goes to the
        runtime once, and again for each case the search visits. */
    method HandleEval(body: Text) returns (r: HandleResult, ghost requests: seq<Object>)
      modifies this
      ensures sent == old(sent) + RequestOf(body).ToSeq() + requests
      ensures match body
              case Malformed(m) => r == Rejected(Said(m))
              case Parsed(o) => !RequestValid(o) ==> r == Rejected(RequestInvalid)
              case NullText => true
      ensures RequestOf(body).Some? ==>
                match eval(RequestOf(body).value)
                case HandleError(m) => r == Rejected(Said(m))
                case Panics => r.NoReply?
                case NullAnswer => r.EmptyReply?
                case Answered(resp) => if ResponseValid(resp) then !r.Rejected? else r == Rejected(ResponseInvalid)
      ensures r.Rejected? <==> SendText(eval, body).SendError?
      ensures SendText(eval, body).SendPanics? ==> r.NoReply?
      ensures !SendText(eval, body).Reply? || r.EmptyReply? ==> requests == []
      ensures SendText(eval, body).Reply? ==>
                var resp := SendText(eval, body).body;
                && (r.EmptyReply? <==> "result" !in resp || !resp["result"].Obj?)
                && (!r.EmptyReply? ==>
                      var o := if body.Parsed? then body.fields else map[];
                      var before := resp["result"].fields;
                      if r.NoReply? then Processed(eval, body, o, before, Crashed, requests)
                      else
                        && r.Replied? && "result" in r.body && r.body["result"].Obj?
                        && r.body == resp["result" := r.body["result"]]
                        && Processed(eval, body, o, before, Done(r.body["result"].fields), requests))
    {
      requests := [];
      var sending := SendCommand(body);
      match sending {
        case SendError(m) => return Rejected(m), requests;
        case SendPanics => return NoReply, requests;
        case Reply(resp) =>
          var reqBody: Object := if body.Parsed? then body.fields else map[];
          if "result" !in resp || !resp["result"].Obj? {
            return EmptyReply, requests;
          }
          var result := new ResultMap(resp["result"].fields);
          var ok;
          ok, requests := ProcessEval(reqBody, result, body);
          if !ok {
            return NoReply, requests;
          }
          return Replied(resp["result" := Obj(result.fields)]), requests;
      }
    }
  }

  ghost predicate Feedback(cases: seq<Json>, s: Search, r: Outcome<Match>) {
    if s.matches == [] then r == Done(Match(None, s.warnings))
    else
      && s.matches[0] < |cases| && s.feedback != []
      && cases[s.matches[0]].Obj? && "feedback" in cases[s.matches[0]].fields
      && var entry := MatchEntry(cases[s.matches[0]].fields, s.matches[0], s.feedback[0]);
         r == if entry.Crashed? then Crashed else Done(Match(Some(entry.value), s.warnings))
  }
}
