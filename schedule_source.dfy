/** How both saved-schedule pages (exam_schedule.php and
    exam_schedule_new.php, identical in this part) load the result file the
    Python step writes and decide what to show: the load error, the saved
    error, the suggestion, or an unexpected structure. */
module ScheduleSource {
  import opened Text
  import opened Wrappers

  /** A value json_decode($text, true) can produce: objects and lists become
      PHP arrays, keyed by strings here (list indices as "0", "1", ...). */
  datatype Json =
    | JNull
    | JBool(b: bool)
    | JNumber(isZero: bool)
    | JString(s: string)
    | JArray(entries: map<string, Json>)

  /** What reading the result file gives: the checks of lines 46-63 in order. */
  datatype ResultFile =
    | NotFound
    | Unreadable
    | ReadFailed
    | BadJson(reason: string)
    | Decoded(value: Json)

  /** PHP truthiness of a decoded value, the test of `elseif ($loaded_result)`. */
  predicate Truthy(j: Json) {
    match j
    case JNull => false
    case JBool(b) => b
    case JNumber(isZero) => !isZero
    case JString(s) => s != "" && s != "0"
    case JArray(entries) => |entries| > 0
  }

  /** isset($loaded_result[$key]): the value is an array holding the key with
      a non-null value; string offsets by a non-numeric key are never set. */
  predicate IsSet(j: Json, key: string) {
    j.JArray? && key in j.entries && j.entries[key] != JNull
  }

  /** Lines 43-63: the decoded result and the load error message. */
  method LoadResult(file: ResultFile, path: string) returns (loaded: Json, loadError: Option<string>)
    ensures loadError.None? <==> file.Decoded?
    ensures loaded == if file.Decoded? then file.value else JNull
    ensures loadError == LoadMessage(file, path)
  {
    loaded, loadError := JNull, None;
    match file
    case Decoded(value) =>
      loaded := value;
    case BadJson(reason) =>
      loadError := Some("Error: Could not decode JSON from result file: " + reason);
      loaded := JNull;
    case ReadFailed =>
      loadError := Some("Error: Could not read the result file (" + path + ").");
    case Unreadable =>
      loadError := Some("Error: Result file (" + path + ") exists but is not readable by the web server.");
    case NotFound =>
      loadError := Some("Info: Result file (" + path + ") not found. Run the Python script first to generate it.");
  }

  /** The message each failed load leaves in $load_error. */
  function LoadMessage(file: ResultFile, path: string): Option<string> {
    match file
    case NotFound => Some("Info: Result file (" + path + ") not found. Run the Python script first to generate it.")
    case Unreadable => Some("Error: Result file (" + path + ") exists but is not readable by the web server.")
    case ReadFailed => Some("Error: Could not read the result file (" + path + ").")
    case BadJson(reason) => Some("Error: Could not decode JSON from result file: " + reason)
    case Decoded(_) => None
  }

  /** What the schedule panel shows (exam_schedule.php:284-291 and 442-449). */
  datatype Shown =
    | LoadFailed(message: string)
    | SavedError(error: Json)
    | SavedSuggestion(suggestion: Json)
    | UnexpectedStructure
    | NothingToShow

  /** `if ($load_error)` wins over everything the decoded result holds; then a
      saved error wins over a suggestion. */
  function Dispatch(loaded: Json, loadError: Option<string>): (shown: Shown)
    ensures shown.LoadFailed? <==> loadError.Some? && !PhpEmpty(loadError.value)
    ensures shown.LoadFailed? ==> shown.message == loadError.value
    ensures shown.SavedSuggestion? ==> !IsSet(loaded, "error")
  {
    if loadError.Some? && !PhpEmpty(loadError.value) then LoadFailed(loadError.value)
    else if !Truthy(loaded) then NothingToShow
    else if IsSet(loaded, "error") then SavedError(loaded.entries["error"])
    else if IsSet(loaded, "suggestion") then SavedSuggestion(loaded.entries["suggestion"])
    else UnexpectedStructure
  }

  /** Every load message is non-empty, so PHP treats it as true. */
  lemma LoadMessagesNonEmpty(file: ResultFile, path: string)
    ensures LoadMessage(file, path).Some? ==> !PhpEmpty(LoadMessage(file, path).value)
  {
  }

  /** The panel for a result file: a failed load always shows its message;
      otherwise a saved "error" wins over a "suggestion", a result with
      neither is an unexpected structure, and a false-like result (null,
      false, 0, "", "0" or an empty array) shows the fallback. */
  lemma DispatchExactly(file: ResultFile, path: string)
    ensures var shown := Dispatch(if file.Decoded? then file.value else JNull, LoadMessage(file, path));
      && (shown.LoadFailed? <==> !file.Decoded?)
      && (!file.Decoded? ==> shown == LoadFailed(LoadMessage(file, path).value))
      && (shown == NothingToShow <==> file.Decoded? && !Truthy(file.value))
      && (shown.SavedError? <==> file.Decoded? && IsSet(file.value, "error"))
      && (shown.SavedSuggestion? <==>
            file.Decoded? && !IsSet(file.value, "error") && IsSet(file.value, "suggestion"))
      && (shown == UnexpectedStructure <==>
            file.Decoded? && Truthy(file.value)
            && !IsSet(file.value, "error") && !IsSet(file.value, "suggestion"))
  {
    LoadMessagesNonEmpty(file, path);
    if file.Decoded? && (IsSet(file.value, "error") || IsSet(file.value, "suggestion")) {
      var m := file.value.entries;
      assert m.Keys != {};
      assert |m| > 0;
    }
  }
}
