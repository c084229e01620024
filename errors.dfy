/** getErrorMessage of the frontend: turns whatever a failed request threw
    into a message. Errors are JavaScript values; numbers are integers, and
    `JSON.stringify` is a parameter since its output format is not modelled. */
module Errors {
  import opened Wrappers
  import opened Decimal

  datatype JsValue =
    | Undefined
    | Null
    | Bool(b: bool)
    | Num(n: int)
    | Str(s: string)
    | Obj(props: map<string, JsValue>)

  /** The values `!value` is true of. */
  predicate Falsy(v: JsValue) {
    v == Undefined || v == Null || v == Bool(false) || v == Num(0) || v == Str("")
  }

  /** `v[name]`: a missing property reads as undefined. */
  function Prop(v: JsValue, name: string): JsValue {
    if v.Obj? && name in v.props then v.props[name] else Undefined
  }

  /** `name in v` for a non-null object. */
  predicate HasProp(v: JsValue, name: string) {
    v.Obj? && name in v.props
  }

  /** A value as a template literal writes it. */
  function Display(v: JsValue): string {
    match v
    case Undefined => "undefined"
    case Null => "null"
    case Bool(b) => if b then "true" else "false"
    case Num(n) => IntToString(n)
    case Str(s) => s
    case Obj(_) => "[object Object]"
  }

  const UnknownError := "An unknown error occurred"
  const InvalidCredentials := "Invalid email or password"
  const AccessDenied := "Access denied"
  const ResourceNotFound := "Resource not found"
  const ServerError := "Server error. Please try again later"

  /** The fixed message of a status the helper knows, if any. Only the
      numbers themselves match: `===` sets a string "401" apart. */
  function StatusMessage(status: JsValue): Option<string> {
    if status == Num(401) then Some(InvalidCredentials)
    else if status == Num(403) then Some(AccessDenied)
    else if status == Num(404) then Some(ResourceNotFound)
    else if status == Num(500) then Some(ServerError)
    else None
  }

  /** `Error ${status}: ${JSON.stringify(data) || 'Unknown error'}`. */
  function FallbackMessage(status: JsValue, data: JsValue, stringify: JsValue -> Option<string>): string {
    var json := stringify(data);
    "Error " + Display(status) + ": " + (if json.Some? && json.value != "" then json.value else "Unknown error")
  }

  /** getErrorMessage; `Undefined` stands for the function returning
      undefined. `data.message` and `data.error` are returned as they are:
      `as string` converts nothing. */
  function GetErrorMessage(error: JsValue, stringify: JsValue -> Option<string>): (r: JsValue)
    ensures !Falsy(error) && !error.Obj? ==> r == Undefined
  {
    if Falsy(error) then Str(UnknownError)
    else if HasProp(error, "status") then
      var status := Prop(error, "status");
      var data := Prop(error, "data");
      if !Falsy(data) && data.Obj? && HasProp(data, "message") then Prop(data, "message")
      else if !Falsy(data) && data.Obj? && HasProp(data, "error") then Prop(data, "error")
      else if StatusMessage(status).Some? then Str(StatusMessage(status).value)
      else Str(FallbackMessage(status, data, stringify))
    else if error.Obj? && Prop(error, "message").Str? then Prop(error, "message")
    else Undefined
  }

  /** A request error: an object with a `status` and, maybe, `data`. */
  predicate IsFetchError(error: JsValue) {
    HasProp(error, "status")
  }

  /** The body the server sent, when it is an object with a `message` or an
      `error` field. */
  predicate HasBodyMessage(error: JsValue) {
    var data := Prop(error, "data");
    data.Obj? && (HasProp(data, "message") || HasProp(data, "error"))
  }

  /** Anything falsy gives the generic message. */
  lemma FalsyIsUnknown(error: JsValue, stringify: JsValue -> Option<string>)
    requires Falsy(error)
    ensures GetErrorMessage(error, stringify) == Str(UnknownError)
  {
  }

  /** The server's own `message` wins over `error` and over every status. */
  lemma BodyMessageFirst(error: JsValue, stringify: JsValue -> Option<string>)
    requires IsFetchError(error) && HasProp(Prop(error, "data"), "message")
    ensures GetErrorMessage(error, stringify) == Prop(Prop(error, "data"), "message")
  {
  }

  /** Without a `message`, the server's `error` field is next. */
  lemma BodyErrorSecond(error: JsValue, stringify: JsValue -> Option<string>)
    requires IsFetchError(error)
    requires HasProp(Prop(error, "data"), "error") && !HasProp(Prop(error, "data"), "message")
    ensures GetErrorMessage(error, stringify) == Prop(Prop(error, "data"), "error")
  {
  }

  /** Without a body message, the four known statuses map to fixed strings. */
  lemma KnownStatuses(error: JsValue, stringify: JsValue -> Option<string>)
    requires IsFetchError(error) && !HasBodyMessage(error)
    ensures var status := Prop(error, "status");
      && (status == Num(401) ==> GetErrorMessage(error, stringify) == Str(InvalidCredentials))
      && (status == Num(403) ==> GetErrorMessage(error, stringify) == Str(AccessDenied))
      && (status == Num(404) ==> GetErrorMessage(error, stringify) == Str(ResourceNotFound))
      && (status == Num(500) ==> GetErrorMessage(error, stringify) == Str(ServerError))
  {
  }

  /** Any other status gives `Error <status>: ` followed by the body as JSON,
      or by 'Unknown error' when there is none to show. */
  lemma OtherStatuses(error: JsValue, stringify: JsValue -> Option<string>)
    requires IsFetchError(error) && !HasBodyMessage(error)
    requires StatusMessage(Prop(error, "status")).None?
    ensures var m := GetErrorMessage(error, stringify);
      var prefix := "Error " + Display(Prop(error, "status")) + ": ";
      m.Str? && |m.s| > |prefix| && m.s[..|prefix|] == prefix
  {
    var prefix := "Error " + Display(Prop(error, "status")) + ": ";
    var json := stringify(Prop(error, "data"));
    var tail := if json.Some? && json.value != "" then json.value else "Unknown error";
    assert (prefix + tail)[..|prefix|] == prefix;
  }

  /** A status-bearing error always gets a string unless its body's own
      `message` or `error` field is not one. */
  lemma FetchErrorsGetText(error: JsValue, stringify: JsValue -> Option<string>)
    requires IsFetchError(error)
    requires var data := Prop(error, "data");
      (HasProp(data, "message") ==> Prop(data, "message").Str?)
      && (HasProp(data, "error") ==> Prop(data, "error").Str?)
    ensures GetErrorMessage(error, stringify).Str?
  {
  }

  /** Any other error gives its own string `message`, and otherwise nothing. */
  lemma OtherErrors(error: JsValue, stringify: JsValue -> Option<string>)
    requires !Falsy(error) && !IsFetchError(error)
    ensures Prop(error, "message").Str? ==> GetErrorMessage(error, stringify) == Prop(error, "message")
    ensures !Prop(error, "message").Str? ==> GetErrorMessage(error, stringify) == Undefined
  {
  }
}
