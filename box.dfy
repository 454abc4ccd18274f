/** The single-owner box adapter: every capability of `Box<T>` forwards to `T`'s. Reading
    goes through the box to the value inside; decoding decodes a `T` and puts it in a new box.

    `T`'s own capabilities are parameters, as in the array adapter. */
module BoxInput {
  import opened GraphQL
  import ArrayInput

  /** A box owning exactly one value. */
  datatype Box<T> = Box(inner: T)

  /* ---------------------------------------------------------------------------------
     Type metadata and names
     --------------------------------------------------------------------------------- */

  /** The box registers `T`'s metadata; `meta` threads the registry `R` through. */
  function Meta<R, TI, M>(innerMeta: (R, TI) -> (R, M), registry: R, typeInfo: TI): (r: (R, M))
    ensures r == innerMeta(registry, typeInfo)
  {
    innerMeta(registry, typeInfo)
  }

  /** The box's type name is `T`'s. */
  function TypeName<TI>(innerTypeName: TI -> string, typeInfo: TI): (r: string)
    ensures r == innerTypeName(typeInfo)
  {
    innerTypeName(typeInfo)
  }

  /** The concrete type name of a box is that of the value inside it. */
  function ConcreteTypeName<T, TI>(b: Box<T>, innerConcreteTypeName: (T, TI) -> string, typeInfo: TI): (r: string)
    ensures r == innerConcreteTypeName(b.inner, typeInfo)
  {
    innerConcreteTypeName(b.inner, typeInfo)
  }

  /** Boxing changes neither the metadata, nor the type name, nor any value's concrete
      type name, however deeply boxes are nested. */
  lemma MetadataForwards<T, R, TI, M>(
    b: Box<Box<T>>, meta: (R, TI) -> (R, M), typeName: TI -> string, concrete: (T, TI) -> string,
    registry: R, typeInfo: TI)
    ensures Meta(meta, registry, typeInfo) == meta(registry, typeInfo)
    ensures Meta((r, ti) => Meta(meta, r, ti), registry, typeInfo) == meta(registry, typeInfo)
    ensures TypeName(typeName, typeInfo) == typeName(typeInfo)
    ensures TypeName(ti => TypeName(typeName, ti), typeInfo) == typeName(typeInfo)
    ensures ConcreteTypeName(b.inner, concrete, typeInfo) == concrete(b.inner.inner, typeInfo)
    ensures ConcreteTypeName(b, (x, ti) => ConcreteTypeName(x, concrete, ti), typeInfo) == concrete(b.inner.inner, typeInfo)
  {
  }

  /* ---------------------------------------------------------------------------------
     Input values
     --------------------------------------------------------------------------------- */

  /** A box is encoded as the value inside it. */
  function ToInputValue<S, T>(b: Box<T>, toInput: T -> InputValue<S>): (r: InputValue<S>)
    ensures r == toInput(b.inner)
  {
    toInput(b.inner)
  }

  /** Decoding into a box, for a sized `T`: `T` decodes, then its value is moved into a new
      box; `T`'s error is the box's error. */
  function TryFromInputValue<S, T, E>(v: InputValue<S>, decode: InputValue<S> -> Result<T, E>)
    : (r: Result<Box<T>, E>)
    ensures r.Ok? <==> decode(v).Ok?
    ensures r.Ok? ==> r.value == Box(decode(v).value)
    ensures r.Err? ==> r.error == decode(v).error
  {
    decode(v).Map(x => Box(x))
  }

  /** Decoding an absent value into a box: `T`'s result for an absent value, boxed. */
  function TryFromImplicitNull<T, E>(innerImplicitNull: Result<T, E>): (r: Result<Box<T>, E>)
    ensures r.Ok? <==> innerImplicitNull.Ok?
    ensures r.Ok? ==> r.value == Box(innerImplicitNull.value)
    ensures r.Err? ==> r.error == innerImplicitNull.error
  {
    innerImplicitNull.Map(x => Box(x))
  }

  /** `T`'s decoder lifted to boxes. */
  function Decoder<S, T, E>(decode: InputValue<S> -> Result<T, E>): InputValue<S> -> Result<Box<T>, E> {
    v => TryFromInputValue(v, decode)
  }

  /** The box is transparent on the way out: its encoding is the encoding of its content. */
  lemma ToInputValueForwards<S, T>(b: Box<T>, toInput: T -> InputValue<S>)
    ensures ToInputValue(b, toInput) == toInput(b.inner)
    ensures ToInputValue(Box(b), (x: Box<T>) => ToInputValue(x, toInput)) == toInput(b.inner)
  {
  }

  /** Decoding yields a box exactly when `T` decodes, and the box holds the value `T`
      decoded and nothing else; an error is `T`'s error unchanged. */
  lemma TryFromInputValueBoxes<S, T, E>(v: InputValue<S>, decode: InputValue<S> -> Result<T, E>)
    ensures forall b: Box<T> :: TryFromInputValue(v, decode) == Ok(b) <==> decode(v) == Ok(b.inner)
    ensures forall e: E :: TryFromInputValue(v, decode) == Err(e) <==> decode(v) == Err(e)
  {
  }

  /** Likewise for an absent value. */
  lemma TryFromImplicitNullBoxes<T, E>(innerImplicitNull: Result<T, E>)
    ensures forall b: Box<T> :: TryFromImplicitNull(innerImplicitNull) == Ok(b) <==> innerImplicitNull == Ok(b.inner)
    ensures forall e: E :: TryFromImplicitNull(innerImplicitNull) == Err(e) <==> innerImplicitNull == Err(e)
  {
  }

  /** When `T` round-trips a value, the box round-trips the box around it. */
  lemma RoundTrip<S, T, E>(b: Box<T>, toInput: T -> InputValue<S>, decode: InputValue<S> -> Result<T, E>)
    requires decode(toInput(b.inner)) == Ok(b.inner)
    ensures TryFromInputValue(ToInputValue(b, toInput), decode) == Ok(b)
  {
  }

  /* ---------------------------------------------------------------------------------
     Boxes and arrays
     --------------------------------------------------------------------------------- */

  /** Boxes every element of an array. */
  function BoxAll<T>(a: seq<T>): (r: seq<Box<T>>)
    ensures |r| == |a|
  {
    seq(|a|, i requires 0 <= i < |a| => Box(a[i]))
  }

  /** Collecting boxed items is collecting the items and boxing each. */
  lemma {:induction false} DecodeItemsOfBoxes<S, T, E>(
    items: seq<Spanning<InputValue<S>>>, decode: InputValue<S> -> Result<T, E>)
    ensures ArrayInput.DecodeItems(items, Decoder(decode)) == ArrayInput.DecodeItems(items, decode).Map(BoxAll)
    decreases |items|
  {
    if items != [] {
      DecodeItemsOfBoxes(items[1..], decode);
      var rest := ArrayInput.DecodeItems(items[1..], decode);
      if decode(items[0].item).Ok? && rest.Ok? {
        assert BoxAll([decode(items[0].item).value] + rest.value)
          == [Box(decode(items[0].item).value)] + BoxAll(rest.value);
      }
    }
  }

  /** An array of boxes decodes like the array of their contents, each element boxed, and
      fails with the same error; so does a box around an array. */
  lemma ArrayOfBoxes<S, T, E>(v: InputValue<S>, n: nat, decode: InputValue<S> -> Result<T, E>)
    ensures ArrayInput.DecodeArray(v, n, Decoder(decode)) == ArrayInput.DecodeArray(v, n, decode).Map(BoxAll)
    ensures TryFromInputValue(v, w => ArrayInput.DecodeArray(w, n, decode))
      == ArrayInput.DecodeArray(v, n, decode).Map(a => Box(a))
  {
    if v.List? && |v.items| == n && n != 0 {
      DecodeItemsOfBoxes(v.items, decode);
    } else if v.List? || v.Null? {
      assert BoxAll<T>([]) == [];
    } else if decode(v).Ok? {
      assert BoxAll([decode(v).value]) == [Box(decode(v).value)];
    }
  }

  /* ---------------------------------------------------------------------------------
     Reflection
     --------------------------------------------------------------------------------- */

  /** A box reflects exactly as its content type. */
  function Reflect(inner: TypeReflection): (r: TypeReflection)
    ensures r.name == inner.name && r.names == inner.names && r.value == inner.value
    ensures ListDepth(r.value) == ListDepth(inner.value)
  {
    inner
  }

  /** The box adds no list or nullability wrapper, and boxing commutes with arrays. */
  lemma ReflectAddsNoWrapper(inner: TypeReflection)
    ensures Reflect(inner).name == inner.name && Reflect(inner).names == inner.names
    ensures Reflect(inner).value == inner.value
    ensures ArrayInput.Reflect(Reflect(inner)) == Reflect(ArrayInput.Reflect(inner))
  {
  }
}
