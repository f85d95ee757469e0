/**
 * The `async_graphql::InputType` implementation: `Password<T>` is exposed as
 * a scalar named `Password` whose wire form is a GraphQL string. The
 * adapter carries no state tag on the wire.
 */
module GraphQL {
  import opened Wrappers
  import opened Bytes
  import opened TagPassword

  /** `async_graphql::Value`. */
  datatype Value =
    | Null
    | Number(n: int)
    | String(text: string)
    | Boolean(b: bool)
    | Binary(bytes: seq<uint8>)
    | Enum(name: string)
    | List(items: seq<Value>)
    | Object(fields: seq<(string, Value)>)

  /** `InputType::type_name`. */
  const TypeName: string := "Password"

  const MissingValue: string := "A password must have a value."
  const NotAString: string := "A password must be a String."

  /** `InputType::parse`: only a present string value becomes a password. */
  function Parse<State>(value: Option<Value>): (r: Result<Password<State>, string>)
    ensures value.None? <==> r == Failure(MissingValue)
    ensures (value.Some? && !value.value.String?) <==> r == Failure(NotAString)
    ensures r.Success? <==> value.Some? && value.value.String?
    ensures r.Success? ==> IntoString(r.value) == value.value.text
  {
    if value.None? then Failure(MissingValue)
    else match value.value
      case String(text) => Success(New(text))
      case _ => Failure(NotAString)
  }

  /** `InputType::to_value`: the stored string as a GraphQL string. */
  function ToValue<State>(p: Password<State>): (v: Value)
    ensures Parse<State>(Some(v)) == Success(p)
  {
    String(p.value)
  }

  /** `InputType::as_raw_value`: the stored string; always present. */
  function AsRawValue<State>(p: Password<State>): (raw: Option<string>)
    ensures raw.Some?
    ensures Parse<State>(Some(String(raw.value))) == Success(p)
  {
    Some(p.value)
  }

  /**
   * The wire form carries no state: a value written from a password in one
   * state parses, unchanged, as a password in any state.
   */
  lemma WireFormForgetsState<S, T>(p: Password<S>)
    ensures Parse<T>(Some(ToValue(p))).Success?
    ensures IntoString(Parse<T>(Some(ToValue(p))).value) == IntoString(p)
  {
  }
}
