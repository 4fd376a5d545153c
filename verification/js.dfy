/**
 The slice of JavaScript semantics the home page relies on: the values a
 decoded JSON body can hold, truthiness and `||`, reading the handful of
 property names the page uses, and calling `toLowerCase` on a value.
 Runtime services whose details are not modelled (Unicode case mapping and
 Number-to-String) are supplied by a `Host`.
 */
module Js {

  /** A JavaScript value as produced by `JSON.parse`, plus `undefined`,
      which is what reading a missing property yields. */
  datatype Value =
    | Undefined
    | Null
    | Bool(b: bool)
    | Num(n: real)
    | Str(s: string)
    | Arr(elems: seq<Value>)
    | Obj(props: map<string, Value>)

  /** The TypeErrors lines 18-20 and 30-53 of the page can raise. Those of
      lines 30-53 abort the current render; the one of line 18 is raised in
      the promise's `then` callback and caught by its `catch` (line 23). */
  datatype TypeError =
    | ReadOfNullish(key: string)   // reading a property of null or undefined
    | NotCallable(key: string)     // calling a property that is not a function
    | NoPrimitive                  // an object whose own `toString` shadows the prototype's

  /** The outcome of evaluating an expression: a value, or a thrown TypeError. */
  datatype Completion<+T> = Normal(value: T) | Throw(error: TypeError) {

    predicate IsFailure() {
      Throw?
    }

    function PropagateFailure<U>(): Completion<U>
      requires Throw?
    {
      Throw(error)
    }

    function Extract(): T
      requires Normal?
    {
      value
    }
  }

  /** Host services: `String.prototype.toLowerCase` and the Number-to-String
      conversion used when an array is joined. Both are left abstract. */
  datatype Host = Host(lower: string -> string, numberText: real -> string)

  predicate Nullish(v: Value) {
    v.Undefined? || v.Null?
  }

  /** ToBoolean. JSON has no NaN, so the only falsy number is zero. */
  predicate Truthy(v: Value) {
    match v
    case Undefined => false
    case Null => false
    case Bool(b) => b
    case Num(n) => n != 0.0
    case Str(s) => s != ""
    case Arr(_) => true
    case Obj(_) => true
  }

  /** Values compared by content; arrays and objects are compared by reference. */
  predicate IsPrimitive(v: Value) {
    !v.Arr? && !v.Obj?
  }

  /** `a || b`: the left operand if it is truthy, otherwise the right one. */
  function Or(a: Value, b: Value): Value {
    if Truthy(a) then a else b
  }

  /** The property names the page reads. None of them is defined on
      Object.prototype, String.prototype or Array.prototype. */
  datatype Field = Attributes | Category | CapCategory | Tags | CapTags | Title | Data {
    function Key(): string {
      match this
      case Attributes => "attributes"
      case Category => "category"
      case CapCategory => "Category"
      case Tags => "tags"
      case CapTags => "Tags"
      case Title => "title"
      case Data => "data"
    }
  }

  /** `v.f` on a value that is not null or undefined: an object's own
      property, and undefined for everything else. */
  function Prop(v: Value, f: Field): Value
    requires !Nullish(v)
  {
    if v.Obj? && f.Key() in v.props then v.props[f.Key()] else Undefined
  }

  /** `v.f` on any value: throws exactly when `v` is null or undefined. */
  function Get(v: Value, f: Field): (r: Completion<Value>)
    ensures r.Throw? <==> Nullish(v)
    ensures r.Throw? ==> r.error == ReadOfNullish(f.Key())
    ensures r.Normal? ==> r.value == Prop(v, f)
  {
    if Nullish(v) then Throw(ReadOfNullish(f.Key())) else Normal(Prop(v, f))
  }

  /** `v.toLowerCase()`: only strings have the method; reading it from null
      or undefined throws, and on any other value it is not a function. */
  function LowerCase(v: Value, host: Host): (r: Completion<string>)
    ensures r.Normal? <==> v.Str?
    ensures v.Str? ==> r.value == host.lower(v.s)
    ensures Nullish(v) ==> r == Throw(ReadOfNullish("toLowerCase"))
    ensures !v.Str? && !Nullish(v) ==> r == Throw(NotCallable("toLowerCase"))
  {
    match v
    case Str(s) => Normal(host.lower(s))
    case Undefined => Throw(ReadOfNullish("toLowerCase"))
    case Null => Throw(ReadOfNullish("toLowerCase"))
    case _ => Throw(NotCallable("toLowerCase"))
  }
}
