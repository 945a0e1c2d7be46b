/**
 * What the route handlers see of an HTTP request body and what they send back.
 * A body is either unreadable (`request.json()` throws, or it is `null`, which
 * destructuring rejects) or a JSON object, seen as a map from field name to value;
 * a missing field is a name absent from the map (a non-object body such as `5`
 * destructures like an empty object).
 */
module Http {
  import opened Wrappers
  import opened AnswersStore

  /**
   * A JSON field value: a string, or any other JSON value, given by its JavaScript
   * truthiness and by the text it takes when used as an object key or in a
   * template literal (`String(v)`).
   */
  datatype Value = Text(text: string) | Other(truthy: bool, key: string)

  datatype Body = Unreadable | Object(fields: map<string, Value>)

  /** `body[name]`, or None when the field is missing. */
  function Field(body: Body, name: string): Option<Value>
  {
    if body.Object? && name in body.fields then Some(body.fields[name]) else None
  }

  /** JavaScript truthiness of a field (`undefined`, `null`, `false`, `0` and `""` are falsy). */
  predicate Truthy(v: Option<Value>)
  {
    match v
    case None => false
    case Some(Text(t)) => t != ""
    case Some(Other(b, _)) => b
  }

  /** The field is a string and not empty: the test `!v || typeof v !== "string"` fails. */
  predicate IsNonEmptyText(v: Option<Value>)
  {
    v.Some? && v.value.Text? && v.value.text != ""
  }

  /** The string a value becomes as an object key or inside `${...}`. */
  function Key(v: Value): string
  {
    match v
    case Text(t) => t
    case Other(_, k) => k
  }

  /** A route's reply: an error with its status, a stored answer with its status, or a success message. */
  datatype Reply =
    | Failure(status: nat, message: string)
    | Stored(status: nat, answer: Answer)
    | Done(message: string)
}
