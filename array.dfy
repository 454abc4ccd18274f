/** The exact-size array adapter: encoding an array `[T; n]` as an input list, and
    decoding an input value into an array whose length must be exactly `n`.

    `T`'s own conversions are parameters: `toInput` is `T::to_input_value` and `decode` is
    `T::try_from_input_value`. An array of `n` elements is a sequence of length `n`. */
module ArrayInput {
  import opened GraphQL
  import opened Format

  /** Why an input value could not become an exact-size array. */
  datatype TryFromInputValueError<E> =
    | IsNull
    | WrongCount(actual: nat, expected: nat)
    | Item(err: E)

  /* ---------------------------------------------------------------------------------
     Encoding
     --------------------------------------------------------------------------------- */

  /** An array becomes a list of its elements' input values, in order, each unlocated. */
  function ToInputValue<S, T>(a: seq<T>, toInput: T -> InputValue<S>): (r: InputValue<S>)
    ensures r.List? && |r.items| == |a|
    ensures forall i :: 0 <= i < |a| ==> r.items[i].item == toInput(a[i])
  {
    List(seq(|a|, i requires 0 <= i < |a| => Unlocated(toInput(a[i]))))
  }

  /* ---------------------------------------------------------------------------------
     Decoding: the specification
     --------------------------------------------------------------------------------- */

  /** Converts the items one after another and stops at the first error, as collecting an
      iterator of results does. This is the reference the staging loop is checked against. */
  function DecodeItems<S, T, E>(items: seq<Spanning<InputValue<S>>>, decode: InputValue<S> -> Result<T, E>)
    : (r: Result<seq<T>, E>)
    ensures r.Ok? ==> |r.value| == |items|
    ensures r.Ok? ==> forall i :: 0 <= i < |items| ==> decode(items[i].item) == Ok(r.value[i])
    ensures r.Err? ==> exists i :: 0 <= i < |items| && decode(items[i].item) == Err(r.error)
    decreases |items|
  {
    if items == [] then Ok([])
    else
      match decode(items[0].item)
      case Err(e) => Err(e)
      case Ok(x) =>
        match DecodeItems(items[1..], decode)
        case Err(e) => Err(e)
        case Ok(xs) => Ok([x] + xs)
  }

  /** The index of the first item that fails to convert, or the number of items if none does. */
  function FirstFailure<S, T, E>(items: seq<Spanning<InputValue<S>>>, decode: InputValue<S> -> Result<T, E>)
    : (k: nat)
    ensures k <= |items|
    ensures forall j :: 0 <= j < k ==> decode(items[j].item).Ok?
    ensures k < |items| ==> decode(items[k].item).Err?
    decreases |items|
  {
    if items == [] then 0
    else if decode(items[0].item).Err? then 0
    else 1 + FirstFailure(items[1..], decode)
  }

  /** The converted values of the first `k` items, all of which convert. */
  function Decoded<S, T, E>(items: seq<Spanning<InputValue<S>>>, decode: InputValue<S> -> Result<T, E>, k: nat)
    : (r: seq<T>)
    requires k <= |items|
    requires forall j :: 0 <= j < k ==> decode(items[j].item).Ok?
    ensures |r| == k
  {
    seq(k, j requires 0 <= j < k => decode(items[j].item).value)
  }

  /** The result of decoding `v` into an array of exactly `n` elements. */
  function DecodeArray<S, T, E>(v: InputValue<S>, n: nat, decode: InputValue<S> -> Result<T, E>)
    : (r: Result<seq<T>, TryFromInputValueError<E>>)
    ensures r.Ok? ==> |r.value| == n
    ensures v.Null? ==> r == Err(IsNull)
    ensures r.Err? && r.error.WrongCount? ==> r.error.expected == n && r.error.actual != n
    ensures r.Err? && r.error.Item? ==> !v.Null?
  {
    match v
    case List(ls) =>
      if |ls| != n then Err(WrongCount(|ls|, n))
      else if n == 0 then Ok([])
      else DecodeItems(ls, decode).MapErr(e => Item(e))
    case Null => Err(IsNull)
    case _ =>
      match decode(v)
      case Err(e) => Err(Item(e))
      case Ok(x) => if n == 1 then Ok([x]) else Err(WrongCount(1, n))
  }

  /** The inputs handed to the element converter while decoding `v`, in call order. */
  ghost function ConverterCalls<S, T, E>(v: InputValue<S>, n: nat, decode: InputValue<S> -> Result<T, E>)
    : seq<InputValue<S>>
  {
    match v
    case List(ls) =>
      if |ls| != n || n == 0 then []
      else
        var k := FirstFailure(ls, decode);
        Items(ls)[..if k < |ls| then k + 1 else |ls|]
    case Null => []
    case _ => [v]
  }

  /** The converted elements released while decoding `v`, in release order: the staged
      prefix when an item fails, and a bare value's converted element when it is refused for
      the wrong count. A successful decode releases nothing: its elements pass to the result. */
  ghost function Released<S, T, E>(v: InputValue<S>, n: nat, decode: InputValue<S> -> Result<T, E>)
    : seq<T>
  {
    match v
    case List(ls) =>
      if |ls| != n || n == 0 then []
      else
        var k := FirstFailure(ls, decode);
        if k < |ls| then Decoded(ls, decode, k) else []
    case Null => []
    case _ => if decode(v).Ok? && n != 1 then [decode(v).value] else []
  }

  /* ---------------------------------------------------------------------------------
     Decoding: the staging buffer and the algorithm
     --------------------------------------------------------------------------------- */

  /** A slot of the staging buffer: not yet written, or holding a converted element. */
  datatype Slot<T> = Uninit | Init(value: T)

  /** The elements of slots that are all written. */
  function AssumeInit<T>(slots: seq<Slot<T>>): (r: seq<T>)
    requires forall i :: 0 <= i < |slots| ==> slots[i].Init?
    ensures |r| == |slots|
    ensures forall i :: 0 <= i < |slots| ==> slots[i] == Init(r[i])
  {
    seq(|slots|, i requires 0 <= i < |slots| => slots[i].value)
  }

  /** The staging buffer: `n` slots of which the first `initLen` hold converted elements.
      Unless `noDrop` is set, dropping it releases exactly those `initLen` elements;
      `dropped` records every element released, in order. */
  class PartiallyInitializedArray<T> {
    var arr: array<Slot<T>>
    var initLen: nat
    var noDrop: bool
    ghost var dropped: seq<T>

    /** `initLen` counts the written slots exactly: they form a prefix of `arr`. */
    ghost predicate Valid()
      reads this, arr
    {
      initLen <= arr.Length
      && (forall i :: 0 <= i < initLen ==> arr[i].Init?)
      && (forall i :: initLen <= i < arr.Length ==> arr[i] == Uninit)
    }

    /** The elements the buffer currently owns. */
    ghost function Live(): (r: seq<T>)
      reads this, arr
      requires Valid()
      ensures |r| == initLen
    {
      AssumeInit(arr[..initLen])
    }

    constructor (n: nat)
      ensures Valid() && fresh(arr) && arr.Length == n
      ensures initLen == 0 && !noDrop && dropped == []
    {
      arr := new Slot<T>[n](_ => Uninit);
      initLen := 0;
      noDrop := false;
      dropped := [];
    }

    /** Releases the live prefix, each element once and in index order, unless ownership
        of the contents has already been handed over. */
    method Drop()
      requires Valid()
      modifies this`dropped
      ensures dropped == old(dropped) + if noDrop then [] else Live()
    {
      if noDrop {
        return;
      }
      for i := 0 to initLen
        invariant dropped == old(dropped) + Live()[..i]
      {
        dropped := dropped + [arr[i].value];
      }
    }
  }

  /** Decodes `v` into an array of exactly `n` elements. Besides the result it reports, as
      ghost outputs, the inputs the element converter was called on and the converted
      elements that were released on the way. */
  method TryFromInputValue<S, T, E>(v: InputValue<S>, n: nat, decode: InputValue<S> -> Result<T, E>)
    returns (r: Result<seq<T>, TryFromInputValueError<E>>, ghost calls: seq<InputValue<S>>, ghost released: seq<T>)
    ensures r == DecodeArray(v, n, decode)
    ensures calls == ConverterCalls(v, n, decode)
    ensures released == Released(v, n, decode)
  {
    calls, released := [], [];
    match v
    case List(ls) =>
      if |ls| != n {
        r := Err(WrongCount(|ls|, n));
        return;
      }
      if n == 0 {
        r := Ok([]);
        return;
      }
      var out := new PartiallyInitializedArray<T>(n);
      for k := 0 to n
        invariant fresh(out.arr) && out.Valid() && out.arr.Length == n && out.initLen == k
        invariant !out.noDrop && out.dropped == []
        invariant forall j :: 0 <= j < k ==> decode(ls[j].item).Ok? && out.arr[j] == Init(decode(ls[j].item).value)
        invariant calls == Items(ls)[..k]
      {
        var x := decode(ls[k].item);
        calls := calls + [ls[k].item];
        match x
        case Err(e) =>
          // The first failing item: the buffer goes out of scope and releases its prefix.
          assert out.Live() == Decoded(ls, decode, k);
          out.Drop();
          r, released := Err(Item(e)), out.dropped;
          DecodeFirstItemError(ls, k, decode);
          return;
        case Ok(elem) =>
          out.arr[k] := Init(elem);
          out.initLen := out.initLen + 1;
      }
      // Every slot is written: hand the contents over, so dropping the buffer releases nothing.
      out.noDrop := true;
      r := Ok(AssumeInit(out.arr[..]));
      out.Drop();
      released := out.dropped;
      DecodeAllItems(ls, decode);
      assert AssumeInit(out.arr[..]) == DecodeArray(v, n, decode).value;
    case Null =>
      r := Err(IsNull);
    case _ =>
      // A single non-list value stands for a one-element list; it is converted first.
      var x := decode(v);
      calls := [v];
      match x
      case Err(e) =>
        r := Err(Item(e));
      case Ok(elem) =>
        if n == 1 {
          r := Ok([elem]);
        } else {
          // The converted element is not moved into any result, so it is dropped here.
          r, released := Err(WrongCount(1, n)), [elem];
        }
  }

  /* ---------------------------------------------------------------------------------
     Properties of decoding
     --------------------------------------------------------------------------------- */

  /** Collecting the items either yields every converted item in order, or the error of
      the first item that fails. */
  lemma {:induction false} DecodeItemsCharacterized<S, T, E>(
    items: seq<Spanning<InputValue<S>>>, decode: InputValue<S> -> Result<T, E>)
    ensures var k := FirstFailure(items, decode);
      DecodeItems(items, decode) ==
        if k == |items| then Ok(Decoded(items, decode, k)) else Err(decode(items[k].item).error)
    decreases |items|
  {
    if items != [] && decode(items[0].item).Ok? {
      var rest := items[1..];
      DecodeItemsCharacterized(rest, decode);
      var k := FirstFailure(items, decode);
      if k == |items| {
        assert Decoded(items, decode, k) == [decode(items[0].item).value] + Decoded(rest, decode, k - 1);
      }
    }
  }

  /** `null` never becomes an array, whatever its size, and no element is converted. */
  lemma DecodeNull<S, T, E>(n: nat, decode: InputValue<S> -> Result<T, E>)
    ensures DecodeArray(Null, n, decode) == Err(IsNull)
    ensures ConverterCalls(Null, n, decode) == [] && Released(Null, n, decode) == []
  {
  }

  /** A list of the wrong length is refused with both counts before any element is converted. */
  lemma DecodeWrongCount<S, T, E>(ls: seq<Spanning<InputValue<S>>>, n: nat, decode: InputValue<S> -> Result<T, E>)
    requires |ls| != n
    ensures DecodeArray(List(ls), n, decode) == Err(WrongCount(|ls|, n))
    ensures ConverterCalls(List(ls), n, decode) == [] && Released(List(ls), n, decode) == []
  {
  }

  /** The empty list is the empty array, and no converter runs. */
  lemma DecodeEmpty<S, T, E>(decode: InputValue<S> -> Result<T, E>)
    ensures DecodeArray(List([]), 0, decode) == Ok([])
    ensures ConverterCalls(List([]), 0, decode) == [] && Released(List([]), 0, decode) == []
  {
  }

  /** A list of exactly `n` items that all convert yields the array of their converted
      values, position by position; every item is converted once and nothing is released. */
  lemma DecodeAllItems<S, T, E>(ls: seq<Spanning<InputValue<S>>>, decode: InputValue<S> -> Result<T, E>)
    requires forall j :: 0 <= j < |ls| ==> decode(ls[j].item).Ok?
    ensures DecodeArray(List(ls), |ls|, decode).Ok?
    ensures var a := DecodeArray(List(ls), |ls|, decode).value;
      |a| == |ls| && forall i :: 0 <= i < |ls| ==> a[i] == decode(ls[i].item).value
    ensures ConverterCalls(List(ls), |ls|, decode) == Items(ls)
    ensures Released(List(ls), |ls|, decode) == []
  {
    DecodeItemsCharacterized(ls, decode);
  }

  /** When item `k` is the first to fail, decoding fails with that item's error, the
      converter ran on items `0..k` only (k + 1 calls), and exactly the `k` elements
      converted before it are released, each once. */
  lemma DecodeFirstItemError<S, T, E>(ls: seq<Spanning<InputValue<S>>>, k: nat, decode: InputValue<S> -> Result<T, E>)
    requires k < |ls|
    requires forall j :: 0 <= j < k ==> decode(ls[j].item).Ok?
    requires decode(ls[k].item).Err?
    ensures DecodeArray(List(ls), |ls|, decode) == Err(Item(decode(ls[k].item).error))
    ensures ConverterCalls(List(ls), |ls|, decode) == Items(ls)[..k + 1]
    ensures var released := Released(List(ls), |ls|, decode);
      |released| == k && forall j :: 0 <= j < k ==> released[j] == decode(ls[j].item).value
  {
    DecodeItemsCharacterized(ls, decode);
  }

  /** A value that is neither a list nor `null` is converted first, as a one-element list:
      its own error wins whatever `n` is; on success it is the array only when `n` is 1. */
  lemma DecodeBareValue<S, T, E>(v: InputValue<S>, n: nat, decode: InputValue<S> -> Result<T, E>)
    requires !v.List? && !v.Null?
    ensures decode(v).Err? ==> DecodeArray(v, n, decode) == Err(Item(decode(v).error))
    ensures decode(v).Ok? && n == 1 ==> DecodeArray(v, n, decode) == Ok([decode(v).value])
    ensures decode(v).Ok? && n != 1 ==> DecodeArray(v, n, decode) == Err(WrongCount(1, n))
    ensures ConverterCalls(v, n, decode) == [v]
    ensures Released(v, n, decode) == if decode(v).Ok? && n != 1 then [decode(v).value] else []
  {
  }

  /** Decoding succeeds exactly when the input is a list of `n` items that all convert, or a
      bare value that converts and `n` is 1; a success always holds exactly `n` elements. */
  lemma DecodeSucceedsIff<S, T, E>(v: InputValue<S>, n: nat, decode: InputValue<S> -> Result<T, E>)
    ensures DecodeArray(v, n, decode).Ok? <==>
      (v.List? && |v.items| == n && forall j :: 0 <= j < n ==> decode(v.items[j].item).Ok?)
      || (!v.List? && !v.Null? && n == 1 && decode(v).Ok?)
    ensures DecodeArray(v, n, decode).Ok? ==> |DecodeArray(v, n, decode).value| == n
  {
    if v.List? {
      DecodeItemsCharacterized(v.items, decode);
    }
  }

  /** The values of the converter calls that succeeded, in call order. */
  ghost function Converted<S, T, E>(inputs: seq<InputValue<S>>, decode: InputValue<S> -> Result<T, E>): seq<T>
    decreases |inputs|
  {
    if inputs == [] then []
    else
      Converted(inputs[..|inputs| - 1], decode)
        + match decode(inputs[|inputs| - 1]) case Ok(x) => [x] case Err(_) => []
  }

  /** Converting the first `j` items, none of which fails, yields their converted values. */
  lemma {:induction false} ConvertedPrefix<S, T, E>(ls: seq<Spanning<InputValue<S>>>, decode: InputValue<S> -> Result<T, E>, j: nat)
    requires j <= FirstFailure(ls, decode)
    ensures Converted(Items(ls)[..j], decode) == Decoded(ls, decode, j)
  {
    if j > 0 {
      assert Items(ls)[..j][..j - 1] == Items(ls)[..j - 1];
      ConvertedPrefix(ls, decode, j - 1);
    }
  }

  /** Every element the converter produces ends up in exactly one place: in the result, or
      released; so decoding neither leaks an element nor releases one twice, on every path. */
  lemma NoLeakNoDoubleRelease<S, T, E>(v: InputValue<S>, n: nat, decode: InputValue<S> -> Result<T, E>)
    ensures var r := DecodeArray(v, n, decode);
      Converted(ConverterCalls(v, n, decode), decode)
        == (if r.Ok? then r.value else []) + Released(v, n, decode)
  {
    if v.List? && |v.items| == n && n != 0 {
      var ls := v.items;
      DecodeItemsCharacterized(ls, decode);
      var k := FirstFailure(ls, decode);
      if k < |ls| {
        assert Items(ls)[..k + 1][..k] == Items(ls)[..k];
        ConvertedPrefix(ls, decode, k);
      } else {
        ConvertedPrefix(ls, decode, k);
      }
    } else if !v.List? && !v.Null? {
      assert [v][..0] == [];
    }
  }

  /** Encoding an array gives a list of exactly its length, and when every element
      survives its own round trip, decoding that list gives the array back. */
  lemma RoundTrip<S, T, E>(a: seq<T>, toInput: T -> InputValue<S>, decode: InputValue<S> -> Result<T, E>)
    requires forall i :: 0 <= i < |a| ==> decode(toInput(a[i])) == Ok(a[i])
    ensures ToInputValue(a, toInput).List? && Items(ToInputValue(a, toInput).items) == seq(|a|, i requires 0 <= i < |a| => toInput(a[i]))
    ensures DecodeArray(ToInputValue(a, toInput), |a|, decode) == Ok(a)
  {
    var ls := ToInputValue(a, toInput).items;
    assert forall j :: 0 <= j < |ls| ==> ls[j].item == toInput(a[j]);
    DecodeAllItems(ls, decode);
    assert DecodeArray(List(ls), |ls|, decode).value == a;
  }

  /* ---------------------------------------------------------------------------------
     Error messages
     --------------------------------------------------------------------------------- */

  const ErrorPrefix := "Failed to convert into exact-size array"

  const WrongCountHead := ErrorPrefix + ": wrong elements count: "

  /** The message for a cardinality mismatch: after the fixed head, the actual count can be
      read back as the leading numeral, and the message ends with the expected count. */
  function WrongCountMessage(actual: nat, expected: nat): (r: string)
    ensures |r| > |WrongCountHead| && r[..|WrongCountHead|] == WrongCountHead
    ensures var rest := r[|WrongCountHead|..];
      LeadingDigits(rest) == |Decimal(actual)| && ParseDecimal(rest[..LeadingDigits(rest)]) == actual
    ensures |r| >= |Decimal(expected)| && r[|r| - |Decimal(expected)|..] == Decimal(expected)
    ensures ParseDecimal(r[|r| - |Decimal(expected)|..]) == expected
  {
    var tail := " instead of " + Decimal(expected);
    LeadingDigitsOfNumeral(Decimal(actual), tail);
    ParseDecimalOfDecimal(actual);
    ParseDecimalOfDecimal(expected);
    var r := WrongCountHead + (Decimal(actual) + tail);
    assert r[|WrongCountHead|..] == Decimal(actual) + tail;
    assert r[|r| - |Decimal(expected)|..] == Decimal(expected);
    r
  }

  /** The field error reported for a decoding error; an item's error is reported as the
      item reports it. */
  function IntoFieldError<E, X>(err: TryFromInputValueError<E>, itemIntoFieldError: E -> FieldError<X>)
    : (r: FieldError<X>)
    ensures !err.Item? ==> |r.message| > |ErrorPrefix| + 2 && r.message[..|ErrorPrefix| + 2] == ErrorPrefix + ": "
    ensures !err.Item? ==> r.extensions == None
    ensures err.WrongCount? ==> r.message == WrongCountMessage(err.actual, err.expected)
    ensures err.Item? ==> r == itemIntoFieldError(err.err)
  {
    match err
    case IsNull => FromMessage(ErrorPrefix + ": Value cannot be `null`")
    case WrongCount(actual, expected) => FromMessage(WrongCountMessage(actual, expected))
    case Item(e) => itemIntoFieldError(e)
  }

  /** The message of a cardinality mismatch determines both counts (that it is never the
      message of a `null` is `NullMessageDiffers`). */
  lemma WrongCountMessageInjective(actual: nat, expected: nat, actual': nat, expected': nat)
    requires WrongCountMessage(actual, expected) == WrongCountMessage(actual', expected')
    ensures actual == actual' && expected == expected'
  {
  }

  /** A `null` and a cardinality mismatch are never reported with the same message. */
  lemma NullMessageDiffers<E, X>(actual: nat, expected: nat, itemIntoFieldError: E -> FieldError<X>)
    ensures IntoFieldError(IsNull, itemIntoFieldError).message
      != IntoFieldError(WrongCount(actual, expected), itemIntoFieldError).message
  {
  }

  /* ---------------------------------------------------------------------------------
     Reflection
     --------------------------------------------------------------------------------- */

  /** An array reflects under its element's names, wrapped in exactly one more list. */
  function Reflect(element: TypeReflection): (r: TypeReflection)
    ensures r.name == element.name && r.names == element.names
    ensures r.value.ListOf? && r.value.inner == element.value
    ensures ListDepth(r.value) == ListDepth(element.value) + 1
  {
    TypeReflection(element.name, element.names, ListOf(element.value))
  }
}
