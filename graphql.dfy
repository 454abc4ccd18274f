/** Values that cross the engine's type boundary, shared by the array and box adapters.
    These types are defined elsewhere in the engine; only the parts the adapters touch are modelled. */
module GraphQL {

  datatype Option<T> = None | Some(value: T)

  /** The outcome of a conversion: a value, or the converter's error. */
  datatype Result<T, E> = Ok(value: T) | Err(error: E) {

    /** `Result::map`: transforms a success, passes an error through unchanged. */
    function Map<U>(f: T -> U): Result<U, E> {
      match this
      case Ok(x) => Ok(f(x))
      case Err(e) => Err(e)
    }

    /** `Result::map_err`: transforms an error, passes a success through unchanged. */
    function MapErr<F>(f: E -> F): Result<T, F> {
      match this
      case Ok(x) => Ok(x)
      case Err(e) => Err(f(e))
    }
  }

  /** Source location of a parsed item. */
  datatype Span = Span(start: nat, end: nat)

  /** An item annotated with where it came from in the query text. */
  datatype Spanning<X> = Spanning(item: X, span: Span)

  /** An item built by the engine itself rather than parsed, so it has no real location. */
  function Unlocated<X>(x: X): Spanning<X> {
    Spanning(x, Span(0, 0))
  }

  /** The dynamically-typed input value, over the engine's scalar type `S`. */
  datatype InputValue<S> =
    | Null
    | Scalar(scalar: S)
    | Enum(enumName: string)
    | Variable(variableName: string)
    | List(items: seq<Spanning<InputValue<S>>>)
    | Object(fields: seq<(Spanning<string>, Spanning<InputValue<S>>)>)

  /** The values held by a list's located items, in order. */
  function Items<S>(items: seq<Spanning<InputValue<S>>>): (r: seq<InputValue<S>>)
    ensures |r| == |items|
  {
    seq(|items|, i requires 0 <= i < |items| => items[i].item)
  }

  /** An error reported on a field: a message and optional extension data. */
  datatype FieldError<X> = FieldError(message: string, extensions: Option<X>)

  /** A field error made from a bare message, as `String::into` makes one: no extensions. */
  function FromMessage<X>(message: string): FieldError<X> {
    FieldError(message, None)
  }

  /** The list and nullability wrappers around a named type, outermost first. */
  datatype WrappedValue = Singular | NullableOf(inner: WrappedValue) | ListOf(inner: WrappedValue)

  /** Number of list wrappers in a wrapped value. */
  function ListDepth(w: WrappedValue): nat {
    match w
    case Singular => 0
    case NullableOf(inner) => ListDepth(inner)
    case ListOf(inner) => 1 + ListDepth(inner)
  }

  /** The statically reflected facts about a type: its base name, the names of its
      base sub-types, and its wrapping. */
  datatype TypeReflection = TypeReflection(name: string, names: seq<string>, value: WrappedValue)
}
