/** The record of a finished task (celery_scheduler/celery_worker.py and celery_task_contract.py): its
  * terminal status, computed apart from that of the task row, the envelope its result is put into, and
  * the error text. Python's str() and the files behind attachments are parameters. */
module TaskSummary {
  import opened Options
  import opened PyText
  import opened PyNumerals
  import opened TaskExecution

  datatype Json = Null | Bool(b: bool) | Num(n: int) | Str(s: string) | List(items: seq<Json>) | Dict(fields: map<string, Json>)

  /** dict.get. */
  function Get(fields: map<string, Json>, key: string): Json {
    if key in fields then fields[key] else Null
  }

  predicate Truthy(v: Json) {
    match v
    case Null => false
    case Bool(b) => b
    case Num(n) => n != 0
    case Str(s) => s != ""
    case List(items) => items != []
    case Dict(fields) => fields != map[]
  }

  /** int(v or 0); None where it raises. */
  function Count(v: Json): Option<int> {
    if !Truthy(v) then Some(0)
    else match v
      case Bool(b) => Some(if b then 1 else 0)
      case Num(n) => Some(n)
      case Str(s) => ParseInt(s, 10)
      case _ => None
  }

  /** The terminal state for the counts of a batch. */
  function TerminalState(total: int, success: int): State {
    if 0 < total == success then Success
    else if success >= 1 then PartialSuccess
    else Failure
  }

  // ---------------------------------------------------------------- the two statuses

  predicate HasCounts(fields: map<string, Json>) {
    "total_cases" in fields || "success_cases" in fields
  }

  function CountedState(fields: map<string, Json>): Option<State> {
    var total, success := Count(Get(fields, "total_cases")), Count(Get(fields, "success_cases"));
    if total.None? || success.None? then None else Some(TerminalState(total.value, success.value))
  }

  /** The state that the task body writes to the task row for a batch result. */
  function RowState(result: map<string, Json>): Option<State> { CountedState(result) }

  /** What the task body returns after it. */
  function Returned(taskId: int, result: map<string, Json>): Json {
    Dict(map["success" := Bool(true), "task_id" := Num(taskId)] + result)
  }

  /** The status of the execution record; None where the update raises. */
  function RecordState(pipelineOk: bool, summary: Json): Option<State> {
    if summary.Dict? && HasCounts(summary.fields) then CountedState(summary.fields)
    else Some(if pipelineOk then Success else Failure)
  }

  predicate PipelineOk(retval: Json) {
    !(retval.Dict? && Get(retval.fields, "success") == Bool(false))
  }

  /** The status that on_success leads to. */
  function OnSuccessState(retval: Json): Option<State> {
    RecordState(PipelineOk(retval), if retval == Null then Dict(map["success" := Bool(true)]) else retval)
  }

  /** The summary that on_failure makes of an exception. */
  function Raised(error: Json, errorType: Json): Json {
    Dict(map["success" := Bool(false), "error" := error, "error_type" := errorType])
  }

  /** An execution that raised is recorded as FAILURE. */
  lemma {:induction false} RaisedIsFailure(error: Json, errorType: Json)
    ensures RecordState(false, Raised(error, errorType)) == Some(Failure)
  {
    assert |"total_cases"| == 11 && |"success_cases"| == 13 && |"success"| == 7 && |"error"| == 5 && |"error_type"| == 10;
  }

  /** The status of the record of a claimed batch: that of its return value, unless the soft limit has ended the
    * delivery before, while the batch went on. */
  function BatchRecordState(taskId: int, result: map<string, Json>, interrupted: Option<Json>): Option<State> {
    if interrupted.Some? then RecordState(false, Raised(interrupted.value, Str("SoftTimeLimitExceeded")))
    else OnSuccessState(Returned(taskId, result))
  }

  /** The task row and the record get the same terminal status exactly when the batch result carries a
    * case count, or says itself that it failed; or, after an interruption, when the batch failed. */
  lemma {:induction false} StatusesAgreeIff(taskId: int, result: map<string, Json>, interrupted: Option<Json>)
    requires RowState(result).Some?
    ensures BatchRecordState(taskId, result, interrupted) == RowState(result) <==>
            if interrupted.Some? then RowState(result) == Some(Failure)
            else HasCounts(result) || Get(result, "success") == Bool(false)
  {
    if interrupted.Some? {
      RaisedIsFailure(interrupted.value, Str("SoftTimeLimitExceeded"));
    } else {
      BatchRecorded(taskId, result);
    }
  }

  lemma {:induction false} ReturnedFields(taskId: int, result: map<string, Json>)
    ensures var fields := Returned(taskId, result).fields;
            && Get(fields, "total_cases") == Get(result, "total_cases")
            && Get(fields, "success_cases") == Get(result, "success_cases")
            && HasCounts(fields) == HasCounts(result)
            && (Get(fields, "success") == Bool(false) <==> Get(result, "success") == Bool(false))
  {
    OtherKeys();
  }

  // ---------------------------------------------------------------- the statuses of the execution's steps

  /** A batch result that has a case count, or says itself that the batch failed. */
  predicate Told(result: map<string, Json>) {
    HasCounts(result) || Get(result, "success") == Bool(false)
  }

  /** What a delivery returns whose claim failed or whose task has no cases. */
  function Refused(error: Json, taskId: int): Json {
    Dict(map["success" := Bool(false), "error" := error, "task_id" := Num(taskId)])
  }

  /** The ends of a batch that the machine takes are those of the batch results: of every result, and no other. */
  lemma {:induction false} BatchEndIff(state: State, told: bool)
    ensures BatchEnd(state, told) <==> exists result :: RowState(result) == Some(state) && Told(result) == told
  {
    if BatchEnd(state, told) {
      EndReached(state, told);
    }
    forall result | RowState(result) == Some(state) ensures BatchEnd(state, Told(result)) {
      assert !HasCounts(result) ==> Get(result, "total_cases") == Null;
    }
  }

  lemma {:induction false} EndReached(state: State, told: bool)
    requires BatchEnd(state, told)
    ensures exists result :: RowState(result) == Some(state) && Told(result) == told
  {
    assert |"total_cases"| == 11 && |"success_cases"| == 13;
    var total := if state == Success then 1 else 2;
    var success := if state == Failure then 0 else 1;
    var result: map<string, Json> :=
      if told then map["total_cases" := Num(total), "success_cases" := Num(success)] else map[];
    assert RowState(result) == Some(state) && Told(result) == told;
  }

  /** The statuses that the machine's steps record are those of the task base class: of a batch by its result,
    * of a refused or empty task FAILURE, and of every error FAILURE. */
  lemma {:induction false} StepsRecord(taskId: int, result: map<string, Json>, error: Json, errorType: Json)
    requires RowState(result).Some?
    ensures OnSuccessState(Returned(taskId, result)) == Some(BatchRecord(RowState(result).value, Told(result)))
    ensures OnSuccessState(Refused(error, taskId)) == Some(Failure)
    ensures RecordState(false, Raised(error, errorType)) == Some(Failure)
  {
    BatchRecorded(taskId, result);
    RefusedIsFailure(error, taskId);
    RaisedIsFailure(error, errorType);
  }

  lemma {:induction false} BatchRecorded(taskId: int, result: map<string, Json>)
    requires RowState(result).Some?
    ensures OnSuccessState(Returned(taskId, result)) == Some(BatchRecord(RowState(result).value, Told(result)))
  {
    ReturnedFields(taskId, result);
    assert !HasCounts(result) ==> Get(result, "total_cases") == Null;
  }

  lemma {:induction false} RefusedIsFailure(error: Json, taskId: int)
    ensures OnSuccessState(Refused(error, taskId)) == Some(Failure)
  {
    OtherKeys();
    assert |"error"| == 5;
  }

  lemma OtherKeys()
    ensures "total_cases" != "success" && "total_cases" != "task_id"
    ensures "success_cases" != "success" && "success_cases" != "task_id" && "success" != "task_id"
  {
    assert |"total_cases"| == 11 && |"success_cases"| == 13 && |"success"| == 7 && |"task_id"| == 7;
    assert "success"[0] != "task_id"[0];
  }

  // ---------------------------------------------------------------- the statuses by the counts

  /** The number that a count of a batch result stands for: nothing and everything empty counts as none. */
  ghost predicate Counts(v: Json, n: int) {
    match v
    case Null => n == 0
    case Bool(b) => n == if b then 1 else 0
    case Num(k) => n == k
    case Str(s) => if s == "" then n == 0 else Denotes(s, 10, n)
    case List(items) => items == [] && n == 0
    case Dict(fields) => fields == map[] && n == 0
  }

  lemma {:induction false} CountIff(v: Json, n: int)
    ensures Counts(v, n) <==> Count(v) == Some(n)
  {
    if v.Str? && v.s != "" {
      ParseIntIff(v.s, 10, n);
    }
  }

  /** SUCCESS when all of the cases, at least one, succeeded; PARTIAL_SUCCESS when some did, but not as many as there
    * were; FAILURE when none did. */
  predicate StatusOf(total: int, success: int, state: State) {
    match state
    case Success => total >= 1 && success == total
    case PartialSuccess => success >= 1 && success != total
    case Failure => success <= 0
    case Running => false
  }

  /** The task row gets that status, and so does the record where the result has a count. */
  lemma {:induction false} BatchStatusIff(result: map<string, Json>, pipelineOk: bool, total: int, success: int, state: State)
    requires Counts(Get(result, "total_cases"), total) && Counts(Get(result, "success_cases"), success)
    ensures RowState(result) == Some(state) <==> StatusOf(total, success, state)
    ensures "total_cases" in result || "success_cases" in result ==>
              (RecordState(pipelineOk, Dict(result)) == Some(state) <==> StatusOf(total, success, state))
  {
    CountIff(Get(result, "total_cases"), total);
    CountIff(Get(result, "success_cases"), success);
  }

  // ---------------------------------------------------------------- the envelope

  datatype Envelope = Envelope(success: bool, error: Json, message: Json, batchCode: Json, attachments: seq<Json>, raw: Json)

  function AsJson(e: Envelope): Json {
    Dict(map["success" := Bool(e.success), "error" := e.error, "message" := e.message, "batch_code" := e.batchCode,
             "attachments" := List(e.attachments), "raw" := e.raw])
  }

  /** Python's str() on JSON values, and _attachments_from_raw, which looks at the file system. */
  datatype Outside = Outside(str: Json -> string, attachments: Json -> seq<Json>)

  predicate IsEnvelope(v: Json) {
    v.Dict? && "attachments" in v.fields && "raw" in v.fields && "success" in v.fields
  }

  function TextOf(o: Outside, v: Json): Json {
    if v == Null then Null else Str(o.str(v))
  }

  /** normalize_task_summary of a value that is already JSON. */
  function Normalize(o: Outside, data: Json, pipelineOk: bool): Envelope {
    if IsEnvelope(data) then
      var f := data.fields;
      Envelope(
        if f["success"] == Null then pipelineOk else Truthy(f["success"]),
        Get(f, "error"), Get(f, "message"), Get(f, "batch_code"),
        if f["attachments"].List? then f["attachments"].items else o.attachments(f["raw"]),
        if f["raw"] == Null then Dict(map[]) else f["raw"])
    else
      var raw := if data == Null then Dict(map[]) else if data.Dict? || data.List? then data else Dict(map["value" := data]);
      var f := if raw.Dict? then raw.fields else map[];
      var error := TextOf(o, Get(f, "error"));
      var message :=
        if Get(f, "message") != Null then Str(o.str(Get(f, "message")))
        else if !pipelineOk then (if error.Str? && error.s != "" then error else Str("执行失败"))
        else Null;
      Envelope(pipelineOk, error, message, TextOf(o, Get(f, "batch_code")), o.attachments(raw), raw)
  }

  /** Normalising an envelope again changes nothing, whatever the second pipeline flag. */
  lemma {:induction false} NormalizeIdempotent(o: Outside, data: Json, first: bool, second: bool)
    ensures Normalize(o, AsJson(Normalize(o, data, first)), second) == Normalize(o, data, first)
  {
    var e := Normalize(o, data, first);
    EnvelopeKeys(e);
  }

  lemma {:induction false} EnvelopeKeys(e: Envelope)
    ensures var f := AsJson(e).fields;
            && IsEnvelope(AsJson(e))
            && f["success"] == Bool(e.success) && Get(f, "error") == e.error && Get(f, "message") == e.message
            && Get(f, "batch_code") == e.batchCode && f["attachments"] == List(e.attachments) && f["raw"] == e.raw
  {
    assert |"success"| == 7 && |"error"| == 5 && |"message"| == 7 && |"batch_code"| == 10 && |"attachments"| == 11 && |"raw"| == 3;
    assert "success"[0] != "message"[0];
  }

  // ---------------------------------------------------------------- failure details

  const DETAIL_LIMIT := 3

  function FirstOf<T>(s: seq<T>, n: nat): seq<T> { if |s| <= n then s else s[..n] }

  /** The reason of one entry, stripped; "" for none. */
  function ReasonText(o: Outside, item: Json): string {
    var reason := if item.Dict? then Get(item.fields, "reason") else item;
    if reason == Null then "" else Strip(o.str(reason))
  }

  function FlatMap<T, U>(f: T -> seq<U>, s: seq<T>): seq<U> {
    if s == [] then [] else FlatMap(f, s[..|s| - 1]) + f(s[|s| - 1])
  }

  lemma {:induction false} FlatMapSnoc<T, U>(f: T -> seq<U>, s: seq<T>, x: T)
    ensures FlatMap(f, s + [x]) == FlatMap(f, s) + f(x)
  {
    assert (s + [x])[..|s|] == s;
  }

  lemma {:induction false} FlatMapConcat<T, U>(f: T -> seq<U>, a: seq<T>, b: seq<T>)
    ensures FlatMap(f, a + b) == FlatMap(f, a) + FlatMap(f, b)
  {
    if b == [] {
      assert a + b == a;
    } else {
      var n := |b| - 1;
      assert a + b == (a + b[..n]) + [b[n]] && b == b[..n] + [b[n]];
      FlatMapSnoc(f, a + b[..n], b[n]);
      FlatMapConcat(f, a, b[..n]);
    }
  }

  /** What one entry adds to the reasons. */
  function Texts(o: Outside): Json -> seq<string> {
    item => if ReasonText(o, item) != "" then [ReasonText(o, item)] else []
  }

  /** The reasons among some entries, in order. */
  function Reasons(o: Outside, entries: seq<Json>): seq<string> { FlatMap(Texts(o), entries) }

  function Entries(raw: Json, key: string): seq<Json> {
    if raw.Dict? && Get(raw.fields, key).List? then Get(raw.fields, key).items else []
  }

  /** The first three reasons among the first three entries of each of the two groups. */
  function Shown(o: Outside, raw: Json): seq<string> {
    FirstOf(Reasons(o, FirstOf(Entries(raw, "invalid"), DETAIL_LIMIT)
                       + FirstOf(Entries(raw, "failed_details"), DETAIL_LIMIT)), DETAIL_LIMIT)
  }

  function Joined(parts: seq<string>): string {
    if parts == [] then "" else if |parts| == 1 then parts[0] else parts[0] + "；" + Joined(parts[1..])
  }

  function DetailSummary(o: Outside, raw: Json): Option<string> {
    var shown := Shown(o, raw);
    var total := |Entries(raw, "invalid")| + |Entries(raw, "failed_details")|;
    if shown == [] then None
    else Some(Joined(shown) + if total > |shown| then "（共" + Digits(total, 10) + "条失败明细，完整明细见执行结果）" else "")
  }

  lemma {:induction false} FlatMapMembers<T, U>(f: T -> seq<U>, s: seq<T>, x: U)
    ensures x in FlatMap(f, s) <==> exists e :: e in s && x in f(e)
  {
    if s != [] {
      var n := |s| - 1;
      FlatMapMembers(f, s[..n], x);
      assert s == s[..n] + [s[n]];
    }
  }

  lemma {:induction false} ReasonsAre(o: Outside, entries: seq<Json>, r: string)
    ensures r in Reasons(o, entries) <==> r != "" && exists e :: e in entries && ReasonText(o, e) == r
  {
    FlatMapMembers(Texts(o), entries, r);
    forall e | e in entries ensures r in Texts(o)(e) <==> r != "" && ReasonText(o, e) == r {
      TextsAre(o, e, r);
    }
  }

  lemma {:induction false} TextsAre(o: Outside, e: Json, r: string)
    ensures r in Texts(o)(e) <==> r != "" && ReasonText(o, e) == r
  {
  }

  /** One group's part of the loop: at most three entries, and no more once three reasons are found. */
  method CollectReasons(o: Outside, entries: seq<Json>, before: seq<string>) returns (reasons: seq<string>)
    requires |before| < DETAIL_LIMIT
    ensures reasons == FirstOf(before + Reasons(o, FirstOf(entries, DETAIL_LIMIT)), DETAIL_LIMIT)
  {
    var first := FirstOf(entries, DETAIL_LIMIT);
    var f := Texts(o);
    reasons := before;
    assert first[..0] == [] && before + [] == before;
    for i := 0 to |first|
      invariant reasons == before + FlatMap(f, first[..i]) && |reasons| <= DETAIL_LIMIT
    {
      if |reasons| >= DETAIL_LIMIT {
        EnoughReasons(f, first, before, i);
        return;
      }
      var text := ReasonText(o, first[i]);
      CollectOne(o, first, before, i, text);
      if text != "" {
        reasons := reasons + [text];
      }
    }
    assert first[..|first|] == first;
  }

  lemma {:induction false} CollectOne(o: Outside, entries: seq<Json>, before: seq<string>, i: nat, text: string)
    requires i < |entries| && text == ReasonText(o, entries[i])
    ensures before + FlatMap(Texts(o), entries[..i + 1])
            == (before + FlatMap(Texts(o), entries[..i])) + if text != "" then [text] else []
  {
    assert entries[..i + 1] == entries[..i] + [entries[i]];
    FlatMapSnoc(Texts(o), entries[..i], entries[i]);
    TextsOne(o, entries[i]);
  }

  lemma {:induction false} TextsOne(o: Outside, e: Json)
    ensures Texts(o)(e) == if ReasonText(o, e) != "" then [ReasonText(o, e)] else []
  {
  }

  lemma {:induction false} EnoughReasons(f: Json -> seq<string>, entries: seq<Json>, before: seq<string>, i: nat)
    requires i <= |entries| && |before + FlatMap(f, entries[..i])| == DETAIL_LIMIT
    ensures FirstOf(before + FlatMap(f, entries), DETAIL_LIMIT) == before + FlatMap(f, entries[..i])
  {
    assert entries == entries[..i] + entries[i..];
    FlatMapConcat(f, entries[..i], entries[i..]);
  }

  lemma {:induction false} FirstOfConcat<T>(a: seq<T>, b: seq<T>, n: nat)
    ensures |a| >= n ==> FirstOf(a + b, n) == FirstOf(a, n)
    ensures |a| < n ==> FirstOf(a, n) == a
  {
  }

  lemma {:induction false} ShownSplit(o: Outside, raw: Json)
    ensures var a := Reasons(o, FirstOf(Entries(raw, "invalid"), DETAIL_LIMIT));
            var b := Reasons(o, FirstOf(Entries(raw, "failed_details"), DETAIL_LIMIT));
            Shown(o, raw) == FirstOf(a + b, DETAIL_LIMIT)
  {
    FlatMapConcat(Texts(o), FirstOf(Entries(raw, "invalid"), DETAIL_LIMIT), FirstOf(Entries(raw, "failed_details"), DETAIL_LIMIT));
  }

  /** The nested loops of _failure_detail_summary. */
  method ShownReasons(o: Outside, raw: Json) returns (reasons: seq<string>)
    ensures reasons == Shown(o, raw)
  {
    ghost var a := Reasons(o, FirstOf(Entries(raw, "invalid"), DETAIL_LIMIT));
    ghost var b := Reasons(o, FirstOf(Entries(raw, "failed_details"), DETAIL_LIMIT));
    ShownSplit(o, raw);
    FirstOfConcat(a, b, DETAIL_LIMIT);
    reasons := CollectReasons(o, Entries(raw, "invalid"), []);
    assert [] + a == a;
    if |reasons| < DETAIL_LIMIT {
      reasons := CollectReasons(o, Entries(raw, "failed_details"), reasons);
    }
  }

  /** _failure_detail_summary. */
  method FailureDetailSummary(o: Outside, raw: Json) returns (r: Option<string>)
    ensures r == DetailSummary(o, raw)
  {
    var reasons := ShownReasons(o, raw);
    if reasons == [] {
      return None;
    }
    var total := |Entries(raw, "invalid")| + |Entries(raw, "failed_details")|;
    r := Some(Joined(reasons) + if total > |reasons| then "（共" + Digits(total, 10) + "条失败明细，完整明细见执行结果）" else "");
  }

  /** There is a summary exactly when one of the first three entries of a group has a reason; a reason
    * further down is not seen. */
  lemma {:induction false} DetailSummaryIff(o: Outside, raw: Json)
    ensures DetailSummary(o, raw).Some? <==>
            exists e :: (e in FirstOf(Entries(raw, "invalid"), 3) || e in FirstOf(Entries(raw, "failed_details"), 3))
                        && ReasonText(o, e) != ""
    ensures DetailSummary(o, raw).Some? ==> DetailSummary(o, raw).value != ""
  {
    var entries := FirstOf(Entries(raw, "invalid"), 3) + FirstOf(Entries(raw, "failed_details"), 3);
    var reasons, shown := Reasons(o, entries), Shown(o, raw);
    forall e | e in entries && ReasonText(o, e) != "" ensures reasons != [] {
      ReasonsAre(o, entries, ReasonText(o, e));
    }
    if shown != [] {
      assert shown[0] in reasons;
      ReasonsAre(o, entries, shown[0]);
      assert Joined(shown) != "";
    }
  }

  // ---------------------------------------------------------------- the final record

  function Message(o: Outside, message: Json, error: string): Json {
    if message == Null || Strip(o.str(message)) == "" then Str(error) else message
  }

  /** The error text of an execution that did not fully succeed. */
  function ErrorText(o: Outside, e: Envelope, status: State, traceback: Option<string>): string {
    var explicit := if e.error == Null then "" else Strip(o.str(e.error));
    var trace := if traceback.None? then "" else Strip(traceback.value);
    if explicit != "" then explicit
    else if trace != "" then trace
    else
      var details := DetailSummary(o, e.raw);
      if details.Some? && details.value != "" then details.value
      else if status == PartialSuccess then "部分执行成功，存在失败明细"
      else "执行失败"
  }

  /** finalize_task_summary. */
  function Finalized(o: Outside, e: Envelope, status: State, traceback: Option<string>): (Envelope, Option<string>) {
    if status == Success then (e.(success := true, error := Null), None)
    else
      var text := ErrorText(o, e, status, traceback);
      (e.(success := false, error := Str(text), message := Message(o, e.message, text)), Some(text))
  }

  class Summary {
    var e: Envelope

    constructor (e: Envelope)
      ensures this.e == e
    {
      this.e := e;
    }

    /** finalize_task_summary, on the envelope itself. */
    method Finalize(o: Outside, status: State, traceback: Option<string>) returns (error: Option<string>)
      modifies this
      ensures (e, error) == Finalized(o, old(e), status, traceback)
    {
      e := e.(success := status == Success);
      if status == Success {
        e := e.(error := Null);
        return None;
      }
      var text := if e.error != Null then Strip(o.str(e.error)) else "";
      var trace := if traceback.Some? then Strip(traceback.value) else "";
      if text == "" && trace != "" {
        text := trace;
      }
      if text == "" {
        var details := FailureDetailSummary(o, e.raw);
        text := if details.Some? then details.value else "";
      }
      if text == "" {
        text := if status == PartialSuccess then "部分执行成功，存在失败明细" else "执行失败";
      }
      e := e.(error := Str(text));
      if e.message == Null || Strip(o.str(e.message)) == "" {
        e := e.(message := Str(text));
      }
      error := Some(text);
    }
  }

  /** The code to put on the record: the given one, else the envelope's, when not empty. */
  function Batch(given: Json, e: Envelope): Json {
    if Truthy(given) then given else e.batchCode
  }

  /** The status part of _update_task_record_on_end. */
  method StatusOnEnd(pipelineOk: bool, summary: Json) returns (r: Option<State>)
    ensures r == RecordState(pipelineOk, summary)
  {
    if summary.Dict? && HasCounts(summary.fields) {
      var total := Count(Get(summary.fields, "total_cases"));
      var success := Count(Get(summary.fields, "success_cases"));
      if total.None? || success.None? {
        return None;
      }
      if 0 < total.value == success.value {
        r := Some(Success);
      } else if success.value >= 1 {
        r := Some(PartialSuccess);
      } else {
        r := Some(Failure);
      }
    } else {
      r := Some(if pipelineOk then Success else Failure);
    }
  }

  /** _update_task_record_on_end up to the write; None where a count raises and nothing is written. */
  method UpdateOnEnd(o: Outside, pipelineOk: bool, summary: Json, traceback: Option<string>, batchCode: Json)
    returns (r: Option<(State, Envelope, Option<string>)>)
    ensures r == EndRecord(o, pipelineOk, summary, traceback, batchCode)
    ensures FollowsCounts(summary, if r.Some? then Some(r.value.0) else None)
  {
    CountedRecord(pipelineOk, summary);
    var status := StatusOnEnd(pipelineOk, summary);
    if status.None? {
      return None;
    }
    var envelope := new Summary(Normalize(o, summary, pipelineOk));
    var error := envelope.Finalize(o, status.value, traceback);
    var batch := Batch(batchCode, envelope.e);
    if Truthy(batch) {
      envelope.e := envelope.e.(batchCode := batch);
    }
    r := Some((status.value, envelope.e, error));
  }

  ghost predicate HasCount(summary: Json, total: int, success: int) {
    && summary.Dict? && ("total_cases" in summary.fields || "success_cases" in summary.fields)
    && Counts(Get(summary.fields, "total_cases"), total) && Counts(Get(summary.fields, "success_cases"), success)
  }

  /** The status is that of the counts, where the summary has some. */
  ghost predicate FollowsCounts(summary: Json, status: Option<State>) {
    forall total, success :: HasCount(summary, total, success) ==> status.Some? && StatusOf(total, success, status.value)
  }

  lemma {:induction false} CountedRecord(pipelineOk: bool, summary: Json)
    ensures FollowsCounts(summary, RecordState(pipelineOk, summary))
  {
    forall total, success | HasCount(summary, total, success)
      ensures RecordState(pipelineOk, summary).Some? && StatusOf(total, success, RecordState(pipelineOk, summary).value)
    {
      CountIff(Get(summary.fields, "total_cases"), total);
      CountIff(Get(summary.fields, "success_cases"), success);
      BatchStatusIff(summary.fields, pipelineOk, total, success, TerminalState(total, success));
    }
  }

  function EndRecord(o: Outside, pipelineOk: bool, summary: Json, traceback: Option<string>, batchCode: Json)
    : Option<(State, Envelope, Option<string>)>
  {
    var status := RecordState(pipelineOk, summary);
    if status.None? then None
    else
      var (e, error) := Finalized(o, Normalize(o, summary, pipelineOk), status.value, traceback);
      var batch := Batch(batchCode, e);
      Some((status.value, if Truthy(batch) then e.(batchCode := batch) else e, error))
  }

  /** For every return value: the record says SUCCESS exactly when the envelope says success and exactly
    * when there is no error; any other record has an error text that is not empty, in both places, and a
    * message. The raw result and the attachments are those of the normalised envelope. */
  lemma {:induction false} RecordIsConsistent(o: Outside, pipelineOk: bool, summary: Json, traceback: Option<string>, batchCode: Json)
    requires EndRecord(o, pipelineOk, summary, traceback, batchCode).Some?
    ensures var (status, e, error) := EndRecord(o, pipelineOk, summary, traceback, batchCode).value;
            && (status == Success <==> e.success) && (status == Success <==> error == None)
            && (status == Success ==> e.error == Null)
            && (status != Success ==> error.Some? && error.value != "" && e.error == Str(error.value) && e.message != Null)
            && e.raw == Normalize(o, summary, pipelineOk).raw
            && e.attachments == Normalize(o, summary, pipelineOk).attachments
  {
  }
}
