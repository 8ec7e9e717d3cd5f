/** Decoded SSM document content and the outdated-runtime test
    (`has_outdated_python_runtime` in filter_ssm_documents.py). */
module Documents {
  import opened Wrappers

  /** A value as `json.loads` returns it. An object is the list of its key/value
      bindings in insertion order; a lookup reads the binding made last. */
  datatype Json =
    | JNull
    | JBool(b: bool)
    | JNumber(n: real)
    | JString(s: string)
    | JArray(items: seq<Json>)
    | JObject(fields: seq<(string, Json)>)

  /** Python truthiness of a decoded value. */
  predicate Truthy(v: Json) {
    match v
    case JNull => false
    case JBool(b) => b
    case JNumber(n) => n != 0.0
    case JString(s) => s != []
    case JArray(items) => items != []
    case JObject(fields) => fields != []
  }

  /** `d.get(key)`: the value bound to `key`, the latest binding winning. */
  function Get(fields: seq<(string, Json)>, key: string): (r: Option<Json>)
    ensures r.None? <==> forall i :: 0 <= i < |fields| ==> fields[i].0 != key
    ensures r.Some? ==> exists i :: 0 <= i < |fields| && fields[i] == (key, r.value)
                                    && forall j :: i < j < |fields| ==> fields[j].0 != key
    decreases |fields|
  {
    if |fields| == 0 then None
    else if fields[|fields| - 1].0 == key then Some(fields[|fields| - 1].1)
    else
      var r := Get(fields[..|fields| - 1], key);
      assert forall j :: 0 <= j < |fields| - 1 ==> fields[..|fields| - 1][j] == fields[j];
      r
  }

  /** What `for x in v` visits: the elements of a list, one string per binding of
      a dict (a key bound twice appears twice, where Python's dict holds it once),
      the one-character strings of a string; None where Python raises TypeError. */
  function Items(v: Json): (r: Option<seq<Json>>)
    ensures r.None? <==> v.JNull? || v.JBool? || v.JNumber?
    ensures v.JArray? ==> r == Some(v.items)
    ensures !v.JArray? && r.Some? ==> forall i :: 0 <= i < |r.value| ==> r.value[i].JString?
  {
    match v
    case JArray(items) => Some(items)
    case JObject(fields) => Some(seq(|fields|, i requires 0 <= i < |fields| => JString(fields[i].0)))
    case JString(s) => Some(seq(|s|, i requires 0 <= i < |s| => JString([s[i]])))
    case _ => None
  }

  const ExecuteScript: string := "aws:executeScript"

  /** One step the source flags: a dict whose `action` is `aws:executeScript` and
      whose `inputs` (an empty dict when absent) is a dict with a string `Runtime`
      equal to some member of `oldRuntimes`. */
  predicate IsOutdatedStep(step: Json, oldRuntimes: seq<string>) {
    && step.JObject?
    && Get(step.fields, "action") == Some(JString(ExecuteScript))
    && var inputs := Get(step.fields, "inputs").GetOr(JObject([]));
       && inputs.JObject?
       && match Get(inputs.fields, "Runtime")
          case Some(JString(rt)) => rt in oldRuntimes
          case _ => false
  }

  /** The scan over the steps, stopping at the first outdated one. */
  function AnyOutdatedStep(steps: seq<Json>, oldRuntimes: seq<string>): (r: bool)
    ensures r <==> exists i :: 0 <= i < |steps| && IsOutdatedStep(steps[i], oldRuntimes)
    decreases |steps|
  {
    if |steps| == 0 then false
    else if IsOutdatedStep(steps[0], oldRuntimes) then true
    else
      var rest := AnyOutdatedStep(steps[1..], oldRuntimes);
      assert forall i :: 1 <= i < |steps| ==> steps[i] == steps[1..][i - 1];
      rest
  }

  /** The content's `mainSteps` is bound to null, a boolean or a number, so that
      iterating over it raises TypeError. */
  predicate MainStepsNotIterable(content: Json) {
    && content.JObject?
    && match Get(content.fields, "mainSteps")
       case Some(v) => v.JNull? || v.JBool? || v.JNumber?
       case None => false
  }

  /** The declarative reading: the content is a dict whose `mainSteps` is a list
      holding at least one outdated step. */
  predicate UsesOutdatedRuntime(content: Json, oldRuntimes: seq<string>) {
    && content.JObject?
    && match Get(content.fields, "mainSteps")
       case Some(JArray(steps)) => exists i :: 0 <= i < |steps| && IsOutdatedStep(steps[i], oldRuntimes)
       case _ => false
  }

  /** What `has_outdated_python_runtime` does: an answer, or the TypeError it lets escape. */
  datatype Verdict = Answer(outdated: bool) | RaisesTypeError

  /** `has_outdated_python_runtime(content, oldRuntimes)`. Empty or non-dict content
      and content without `mainSteps` answer false; a non-iterable `mainSteps`
      raises; otherwise the answer is true exactly when some step is outdated
      (a dict or string `mainSteps` iterates over strings and so never is). */
  function HasOutdatedPythonRuntime(content: Json, oldRuntimes: seq<string>): (r: Verdict)
    ensures !Truthy(content) || !content.JObject? ==> r == Answer(false)
    ensures content.JObject? && Get(content.fields, "mainSteps").None? ==> r == Answer(false)
    ensures r == RaisesTypeError <==> MainStepsNotIterable(content)
    ensures r.Answer? ==> (r.outdated <==> UsesOutdatedRuntime(content, oldRuntimes))
  {
    if !Truthy(content) || !content.JObject? then Answer(false)
    else
      var steps := Get(content.fields, "mainSteps").GetOr(JArray([]));
      match Items(steps)
      case None => RaisesTypeError
      case Some(items) =>
        var found := AnyOutdatedStep(items, oldRuntimes);
        Answer(found)
  }

  /** Only membership in the runtime list matters, not its order or repetitions. */
  lemma {:induction false} OnlyMembershipMatters(content: Json, old1: seq<string>, old2: seq<string>)
    requires forall rt :: rt in old1 <==> rt in old2
    ensures HasOutdatedPythonRuntime(content, old1) == HasOutdatedPythonRuntime(content, old2)
  {
    assert UsesOutdatedRuntime(content, old1) <==> UsesOutdatedRuntime(content, old2) by {
      MoreRuntimesFlagMore(content, old1, old2);
      MoreRuntimesFlagMore(content, old2, old1);
      FlaggedIff(content, old1);
      FlaggedIff(content, old2);
    }
  }


  /** Listing more runtimes as outdated never un-flags a document. */
  lemma {:induction false} MoreRuntimesFlagMore(content: Json, old1: seq<string>, old2: seq<string>)
    requires forall rt :: rt in old1 ==> rt in old2
    ensures HasOutdatedPythonRuntime(content, old1) == Answer(true)
            ==> HasOutdatedPythonRuntime(content, old2) == Answer(true)
  {
    FlaggedIff(content, old1);
    FlaggedIff(content, old2);
    if UsesOutdatedRuntime(content, old1) {
      var steps := Get(content.fields, "mainSteps").value.items;
      var i :| 0 <= i < |steps| && IsOutdatedStep(steps[i], old1);
      assert IsOutdatedStep(steps[i], old2);
    }
  }

  /** The runtime test answers true exactly on content that uses an outdated runtime. */
  lemma {:induction false} FlaggedIff(content: Json, oldRuntimes: seq<string>)
    ensures HasOutdatedPythonRuntime(content, oldRuntimes) == Answer(true)
            <==> UsesOutdatedRuntime(content, oldRuntimes)
  {
    if UsesOutdatedRuntime(content, oldRuntimes) {
      assert Get(content.fields, "mainSteps").value.JArray?;
      assert !MainStepsNotIterable(content);
    }
  }

  /** A step with the given action whose `inputs` names the given runtime, as a decoded dict. */
  function ScriptStep(action: string, runtime: string): Json {
    JObject([("action", JString(action)), ("inputs", JObject([("Runtime", JString(runtime))]))])
  }

  /** The runtime test is exact equality: a runtime that merely starts with a
      listed one is not outdated, and a step whose action is not
      `aws:executeScript` is ignored whatever runtime it names. */
  lemma {:induction false} RuntimeMatchIsExact(oldRuntimes: seq<string>, runtime: string, action: string)
    ensures IsOutdatedStep(ScriptStep(ExecuteScript, runtime), oldRuntimes) <==> runtime in oldRuntimes
    ensures action != ExecuteScript ==> !IsOutdatedStep(ScriptStep(action, runtime), oldRuntimes)
  {
    ScriptStepReads(ExecuteScript, runtime);
    ScriptStepReads(action, runtime);
  }

  lemma {:induction false} ScriptStepReads(action: string, runtime: string)
    ensures Get(ScriptStep(action, runtime).fields, "action") == Some(JString(action))
    ensures Get(ScriptStep(action, runtime).fields, "inputs") == Some(JObject([("Runtime", JString(runtime))]))
    ensures Get([("Runtime", JString(runtime))], "Runtime") == Some(JString(runtime))
  {
    var fields := ScriptStep(action, runtime).fields;
    assert fields[..|fields| - 1] == [("action", JString(action))];
  }
}
