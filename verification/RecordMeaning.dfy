/** What the record of a finished task holds (celery_scheduler/celery_task_contract.py and celery_worker.py), said of the
  * value the task returned: which part of it goes where, and which of several texts becomes the error. */
module RecordMeaning {
  import opened Options
  import opened PyText
  import opened TaskExecution
  import opened TaskSummary

  // ---------------------------------------------------------------- where the parts go

  /** The value is already in the envelope's form. */
  predicate IsWrapped(v: Json) {
    v.Dict? && {"attachments", "raw", "success"} <= v.fields.Keys
  }

  /** The field is there and not null. */
  predicate Has(v: Json, key: string) {
    v.Dict? && key in v.fields && v.fields[key] != Null
  }

  /** The raw result: that of an envelope, or the value itself; one that is neither an object nor a list is put into an
    * object, and a missing one is the empty object. */
  predicate IsRaw(v: Json, raw: Json) {
    if IsWrapped(v) then raw == if Has(v, "raw") then v.fields["raw"] else Dict(map[])
    else match v
      case Null => raw == Dict(map[])
      case Dict(_) => raw == v
      case List(_) => raw == v
      case _ => raw == Dict(map["value" := v])
  }

  /** A field of the value: as it is in an envelope, and otherwise as text. */
  predicate IsField(o: Outside, v: Json, key: string, field: Json) {
    if !Has(v, key) then field == Null
    else field == if IsWrapped(v) then v.fields[key] else Str(o.str(v.fields[key]))
  }

  /** The attachments: an envelope's list, or those found from the raw part or the value itself. */
  predicate AreAttachments(o: Outside, v: Json, raw: Json, attachments: seq<Json>) {
    if !IsWrapped(v) then attachments == o.attachments(raw)
    else if v.fields["attachments"].List? then attachments == v.fields["attachments"].items
    else attachments == o.attachments(v.fields["raw"])
  }

  /** Null, false, zero and everything empty. */
  predicate Nothing(v: Json) {
    v == Null || v == Bool(false) || v == Num(0) || v == Str("") || v == List([]) || v == Dict(map[])
  }

  lemma {:induction false} TruthyIff(v: Json)
    ensures Truthy(v) <==> !Nothing(v)
  {
  }

  lemma {:induction false} PartsAre(o: Outside, v: Json, pipelineOk: bool)
    ensures var e := Normalize(o, v, pipelineOk);
            && IsRaw(v, e.raw) && AreAttachments(o, v, e.raw, e.attachments)
            && IsField(o, v, "error", e.error) && IsField(o, v, "batch_code", e.batchCode)
            && (Has(v, "message") || IsWrapped(v) ==> IsField(o, v, "message", e.message))
            && (e.success <==> if IsWrapped(v) && Has(v, "success") then !Nothing(v.fields["success"]) else pipelineOk)
  {
    assert IsWrapped(v) <==> IsEnvelope(v);
    if IsWrapped(v) {
      TruthyIff(v.fields["success"]);
    }
    if !v.Dict? && !v.List? && v != Null {
      ValueKey();
      assert forall key :: key in ["error", "message", "batch_code"] ==> Get(map["value" := v], key) == Null;
    }
  }

  lemma {:induction false} ValueKey()
    ensures "value" != "error" && "value" != "message" && "value" != "batch_code"
  {
    assert "value"[0] != "error"[0] && "value"[0] != "message"[0] && "value"[0] != "batch_code"[0];
  }

  /** A value without a message that is no envelope: none when the pipeline succeeded; otherwise its error text, when it
    * has one that is not empty. */
  lemma {:induction false} MessageDefault(o: Outside, v: Json, pipelineOk: bool)
    requires !Has(v, "message") && !IsWrapped(v)
    ensures pipelineOk ==> Normalize(o, v, pipelineOk).message == Null
    ensures !pipelineOk && Has(v, "error") && o.str(v.fields["error"]) != "" ==>
              Normalize(o, v, pipelineOk).message == Str(o.str(v.fields["error"]))
    ensures !pipelineOk && !(Has(v, "error") && o.str(v.fields["error"]) != "") ==>
              Normalize(o, v, pipelineOk).message == Str("执行失败")
  {
    PartsAre(o, v, pipelineOk);
    if !v.Dict? && !v.List? && v != Null {
      ValueKey();
    }
  }

  // ---------------------------------------------------------------- the error text

  /** The first of the texts that is not empty. */
  predicate IsFirst(texts: seq<string>, text: string) {
    text != "" && exists i :: 0 <= i < |texts| && texts[i] == text && forall j :: 0 <= j < i ==> texts[j] == ""
  }

  /** A value as a text without blanks around it; nothing for null. */
  function Trimmed(o: Outside, v: Json): string { if v == Null then "" else Strip(o.str(v)) }

  /** The candidates for the error: the value's own error, the traceback, the failure details, and a last word. */
  function Candidates(o: Outside, error: Json, raw: Json, status: State, traceback: Option<string>): seq<string> {
    [Trimmed(o, error),
     if traceback.Some? then Strip(traceback.value) else "",
     if DetailSummary(o, raw).Some? then DetailSummary(o, raw).value else "",
     if status == PartialSuccess then "部分执行成功，存在失败明细" else "执行失败"]
  }

  lemma {:induction false} FirstOfFour(a: string, b: string, c: string, d: string, text: string)
    requires d != ""
    requires text == if a != "" then a else if b != "" then b else if c != "" then c else d
    ensures IsFirst([a, b, c, d], text)
  {
    var texts := [a, b, c, d];
    var i := if a != "" then 0 else if b != "" then 1 else if c != "" then 2 else 3;
    assert texts[i] == text && forall j :: 0 <= j < i ==> texts[j] == "";
  }

  /** The error of a record that is not a success is the first candidate that is not empty; its message is that text too,
    * unless it has one that is not blank. */
  lemma {:induction false} ErrorIsFirst(o: Outside, e: Envelope, status: State, traceback: Option<string>)
    requires status != Success
    ensures var (f, error) := Finalized(o, e, status, traceback);
            && error.Some? && IsFirst(Candidates(o, e.error, e.raw, status, traceback), error.value)
            && f.message == if Trimmed(o, e.message) == "" then Str(error.value) else e.message
  {
    var c := Candidates(o, e.error, e.raw, status, traceback);
    FirstOfFour(c[0], c[1], c[2], c[3], ErrorText(o, e, status, traceback));
  }

  // ---------------------------------------------------------------- the whole record

  ghost predicate RecordMeans(o: Outside, v: Json, traceback: Option<string>, batchCode: Json, status: State, e: Envelope,
                              error: Option<string>) {
    && IsRaw(v, e.raw) && AreAttachments(o, v, e.raw, e.attachments)
    && (e.success <==> status == Success)
    && (status == Success ==> error == None && e.error == Null)
    && (status != Success ==>
          && error.Some? && e.error == Str(error.value)
          && exists own :: IsField(o, v, "error", own) && IsFirst(Candidates(o, own, e.raw, status, traceback), error.value))
    && (Has(v, "message") ==>
          exists own :: IsField(o, v, "message", own)
            && (status != Success && Trimmed(o, own) == "" ==> e.message == e.error)
            && (status == Success || Trimmed(o, own) != "" ==> e.message == own))
    && if Nothing(batchCode) then IsField(o, v, "batch_code", e.batchCode) else e.batchCode == batchCode
  }

  /** The record that is written at the end means that. */
  lemma {:induction false} RecordIs(o: Outside, pipelineOk: bool, v: Json, traceback: Option<string>, batchCode: Json)
    requires EndRecord(o, pipelineOk, v, traceback, batchCode).Some?
    ensures var (status, e, error) := EndRecord(o, pipelineOk, v, traceback, batchCode).value;
            RecordMeans(o, v, traceback, batchCode, status, e, error)
  {
    var (status, e, error) := EndRecord(o, pipelineOk, v, traceback, batchCode).value;
    var n := Normalize(o, v, pipelineOk);
    PartsAre(o, v, pipelineOk);
    TruthyIff(batchCode);
    TruthyIff(n.batchCode);
    if status != Success {
      ErrorIsFirst(o, n, status, traceback);
      assert IsField(o, v, "error", n.error);
    }
    if Has(v, "message") {
      assert IsField(o, v, "message", n.message);
    }
  }

  /** Nothing is written exactly when the value has a count and not both are numbers or empty. */
  lemma {:induction false} NotWrittenIff(o: Outside, pipelineOk: bool, v: Json, traceback: Option<string>, batchCode: Json)
    ensures EndRecord(o, pipelineOk, v, traceback, batchCode).None? <==>
            v.Dict? && ("total_cases" in v.fields || "success_cases" in v.fields) && !exists total, success :: HasCount(v, total, success)
  {
    if v.Dict? {
      var total, success := Count(Get(v.fields, "total_cases")), Count(Get(v.fields, "success_cases"));
      forall t, u ensures HasCounts(v.fields) ==> (HasCount(v, t, u) <==> total == Some(t) && success == Some(u)) {
        CountIff(Get(v.fields, "total_cases"), t);
        CountIff(Get(v.fields, "success_cases"), u);
      }
      if total.Some? && success.Some? && HasCounts(v.fields) {
        assert HasCount(v, total.value, success.value);
      }
    }
  }

  // ---------------------------------------------------------------- reasons

  /** The reason of an entry: that of an object, or the entry itself, without blanks around it and not empty. */
  predicate IsReason(o: Outside, entry: Json, reason: string) {
    && reason != ""
    && if entry.Dict? then Has(entry, "reason") && reason == Strip(o.str(entry.fields["reason"]))
       else entry != Null && reason == Strip(o.str(entry))
  }

  lemma {:induction false} ReasonIff(o: Outside, entry: Json, reason: string)
    requires reason != ""
    ensures ReasonText(o, entry) == reason <==> IsReason(o, entry, reason)
  {
  }

  /** A detail summary exists exactly when one of the first three entries of `invalid` or of `failed_details` has a
    * reason. */
  lemma {:induction false} DetailsIff(o: Outside, raw: Json)
    ensures DetailSummary(o, raw).Some? <==>
            exists entry, reason :: IsReason(o, entry, reason)
              && (entry in FirstOf(Entries(raw, "invalid"), 3) || entry in FirstOf(Entries(raw, "failed_details"), 3))
  {
    DetailSummaryIff(o, raw);
    if DetailSummary(o, raw).Some? {
      var entry :| (entry in FirstOf(Entries(raw, "invalid"), 3) || entry in FirstOf(Entries(raw, "failed_details"), 3))
                   && ReasonText(o, entry) != "";
      ReasonIff(o, entry, ReasonText(o, entry));
    }
    forall entry, reason | IsReason(o, entry, reason)
        && (entry in FirstOf(Entries(raw, "invalid"), 3) || entry in FirstOf(Entries(raw, "failed_details"), 3))
      ensures DetailSummary(o, raw).Some?
    {
      ReasonIff(o, entry, reason);
    }
  }

  /** Joined reasons stand one after the other with a full-width semicolon between them. */
  lemma {:induction false} JoinedConcat(a: seq<string>, b: seq<string>)
    requires a != [] && b != []
    ensures Joined(a + b) == Joined(a) + ("；" + Joined(b))
  {
    if |a| == 1 {
      assert (a + b)[1..] == b;
      assert a[0] + "；" + Joined(b) == a[0] + ("；" + Joined(b));
    } else {
      JoinedConcat(a[1..], b);
      assert (a + b)[1..] == a[1..] + b;
      assert a[0] + "；" + (Joined(a[1..]) + ("；" + Joined(b))) == (a[0] + "；" + Joined(a[1..])) + ("；" + Joined(b));
    }
  }
}
