# Exact-size array and box input adapters, modelled in Dafny

This project models two adapters of a GraphQL engine's type layer.

The first adapter handles an exact-size array `[T; N]`:
- **Encoding** turns the array into an input list of its elements' encodings.
- **Decoding** turns a dynamic input value into an array of exactly `N` elements:
  - `null` is refused with `IsNull`.
  - A list of the wrong length is refused with `WrongCount { actual, expected }` before any element is converted.
  - `N = 0` with an empty list gives the empty array at once.
  - Otherwise the elements are converted one at a time into a staging buffer (`PartiallyInitializedArray`). The first element error aborts with `Item(e)`, and dropping the buffer releases exactly the elements staged so far.
  - A bare non-list value is converted first and then accepted as a one-element array only when `N = 1`. When the value converts and `N != 1`, the converted value is released.
- The module also gives the error messages and the reflected type facts.

The second adapter is the single-owner `Box<T>`. It forwards every capability to `T`. Decoding forwards too, to `T`'s conversion into a box. For a sized `T`, the general conversion decodes a `T` and moves the result into a new box; that is the case modelled here.

Files:
- `graphql.dfy` (module `GraphQL`): the input value, located items, `Result`, field errors and reflected type facts that both adapters use.
- `format.dfy` (module `Format`): decimal rendering of counts and its inverse.
- `array.dfy` (module `ArrayInput`): the array adapter.
- `box.dfy` (module `BoxInput`): the box adapter.

`T`'s own capabilities are parameters of the model:
- `decode: InputValue<S> -> Result<T, E>` stands for `T::try_from_input_value`.
- `toInput: T -> InputValue<S>` stands for `T::to_input_value`.

An array `[T; N]` is a `seq<T>` of length `N`.

Decoding is specified twice:
- `ArrayInput.DecodeArray` is a pure reference. It collects the items and stops at the first error.
- `ArrayInput.TryFromInputValue` is the imperative algorithm. It uses the staging buffer class:
  - `arr` is an `array<Slot<T>>`, where `Slot = Uninit | Init(value)` plays the part of `MaybeUninit<T>`.
  - `initLen` counts the written slots.
  - `noDrop` marks that ownership of the contents has been handed over.
  - The ghost field `dropped` logs every element that `Drop` releases.

The method also returns two ghost logs: the inputs it handed to the converter, and the elements it released. All three of its outputs are proved equal to the specification functions `DecodeArray`, `ConverterCalls` and `Released`. The lemmas state what the source promises about those functions.

## Model

| member | source | states |
|---|---|---|
| `ArrayInput.ToInputValue` | juniper/src/types/array.rs:79-81 | Encoding gives a list of exactly the array's length whose i-th item is the i-th element's encoding. |
| `ArrayInput.DecodeItems` | juniper/src/types/array.rs:154-164 | Collecting the items, on success, gives one value per item, and value i is what item i converts to. On failure the error is the error of some item. |
| `ArrayInput.DecodeArray` | juniper/src/types/array.rs:117-207 | The reference decoder. A success holds exactly `n` elements. `null` always gives `IsNull`. A `WrongCount` always has `expected = n` and an `actual` different from `n`. An `Item` error never comes from `null`. |
| `ArrayInput.TryFromInputValue` | juniper/src/types/array.rs:92-208 | The staging loop returns exactly `DecodeArray(v, n, decode)`. It calls the converter on exactly `ConverterCalls(v, n, decode)`, in order. It releases exactly `Released(v, n, decode)`. Its loop keeps `initLen` equal to the number of written slots and never above `n`. |
| `ArrayInput.PartiallyInitializedArray.constructor` | juniper/src/types/array.rs:144-152 | A new buffer has `n` unwritten slots, `initLen = 0` and `noDrop` unset, and has released nothing. |
| `ArrayInput.PartiallyInitializedArray.Drop` | juniper/src/types/array.rs:99-114 | Dropping releases the live prefix `arr[0..initLen]`, each element once and in index order. It releases nothing when `noDrop` is set. |
| `ArrayInput.FirstFailure` | juniper/src/types/array.rs:154-164 | The index where the loop stops is the first item whose conversion fails, or the list's length if none fails. Every earlier item converts. |
| `ArrayInput.DecodeItemsCharacterized` | juniper/src/types/array.rs:154-164 | Collecting the items gives one of two results. If every item converts, it gives all converted items in order. Otherwise it gives the error of the first failing item. |
| `ArrayInput.DecodeNull` | juniper/src/types/array.rs:183 | `null` fails with `IsNull` for every `n`, including 0. No converter runs and nothing is released. |
| `ArrayInput.DecodeWrongCount` | juniper/src/types/array.rs:118-124 | A list of length `L != n` fails with `WrongCount { actual: L, expected: n }`. The converter is called zero times. |
| `ArrayInput.DecodeEmpty` | juniper/src/types/array.rs:125-133 | For `n = 0`, the empty list decodes to the empty array and no converter runs. |
| `ArrayInput.DecodeAllItems` | juniper/src/types/array.rs:154-179 | A list of `n` items that all convert yields an array whose i-th element is the converted i-th item. Each item is converted once and nothing is released. |
| `ArrayInput.DecodeFirstItemError` | juniper/src/types/array.rs:154-164 | If item `k` is the first to fail, the result is `Item(e_k)`. The converter ran exactly `k + 1` times, on items `0..k`. Exactly the `k` staged elements are released, each once. |
| `ArrayInput.DecodeBareValue` | juniper/src/types/array.rs:184-206 | A bare value is converted once. Its error gives `Item(e)` whatever `n` is. On success it gives the one-element array when `n = 1`. Otherwise it gives `WrongCount { actual: 1, expected: n }`, `n = 0` included, and the converted element is released. |
| `ArrayInput.NoLeakNoDoubleRelease` | juniper/src/types/array.rs:92-208 | On every path, the values of the successful converter calls, in call order, are the result's elements (none on an error) followed by the released elements. So no converted element leaks and none is released twice. |
| `ArrayInput.DecodeSucceedsIff` | juniper/src/types/array.rs:117-207 | Decoding succeeds exactly when the input is either a list of `n` items that all convert, or a bare value that converts with `n = 1`. Every success holds exactly `n` elements. |
| `ArrayInput.RoundTrip` | juniper/src/types/array.rs:79-81 | Encoding gives a list of the elements' encodings, in order. When every element round-trips, decoding that list gives the array back. |
| `ArrayInput.IntoFieldError` | juniper/src/types/array.rs:289-300 | `IsNull` and `WrongCount` are reported under the prefix "Failed to convert into exact-size array" and carry no extensions. A `WrongCount` is reported with the wrong-count message for its two counts. `Item(e)` is reported as `e`'s own field error, unchanged. |
| `ArrayInput.WrongCountMessage` | juniper/src/types/array.rs:293-297 | The message starts with "Failed to convert into exact-size array: wrong elements count: ". The numeral right after that head reads back as the actual count. The message ends with the expected count's numeral, which reads back as the expected count. |
| `ArrayInput.WrongCountMessageInjective` | juniper/src/types/array.rs:293-297 | The message "…: wrong elements count: {actual} instead of {expected}" determines both counts. |
| `ArrayInput.NullMessageDiffers` | juniper/src/types/array.rs:292-297 | The message "…: Value cannot be \`null\`" differs from every wrong-count message. |
| `ArrayInput.Reflect` | juniper/src/types/array.rs:236-258 | The array's reflected `NAME` and `NAMES` are the element's. Its `VALUE` is `wrap::list` of the element's, which is exactly one more list layer. |
| `Format.Decimal` | juniper/src/types/array.rs:293-296 | A count is printed as at least one digit, all decimal digits, with no leading zero unless the count is 0. |
| `Format.ParseDecimalOfDecimal` | juniper/src/types/array.rs:293-296 | A count printed in decimal reads back as the same count. |
| `Format.DecimalInjective` | juniper/src/types/array.rs:293-296 | Different counts are printed as different numerals. |
| `Format.LeadingDigitsOfNumeral` | juniper/src/types/array.rs:293-296 | In a message, a printed count ends where the first non-digit after it begins. |
| `BoxInput.Meta` | juniper/src/types/box.rs:16-21 | A box's `meta` is `T::meta` on the same registry and type info. |
| `BoxInput.TypeName` | juniper/src/types/box.rs:30-32 | A box's `type_name` is `T::type_name`. |
| `BoxInput.ConcreteTypeName` | juniper/src/types/box.rs:41-43 | A box's `concrete_type_name` is that of the value inside it. |
| `BoxInput.ToInputValue` | juniper/src/types/box.rs:157-159 | A box encodes as the value inside it. |
| `BoxInput.Reflect` | juniper/src/types/box.rs:268-290 | A box's reflected `NAME`, `NAMES` and `VALUE` are `T`'s, so it adds no list layer. |
| `BoxInput.MetadataForwards` | juniper/src/types/box.rs:10-44 | `meta`, `type_name` and `concrete_type_name` of a box are `T`'s, even through nested boxes. |
| `BoxInput.ToInputValueForwards` | juniper/src/types/box.rs:152-160 | A box encodes as the value inside it, even through nested boxes. |
| `BoxInput.TryFromInputValue` | juniper/src/types/box.rs:185-189 | Decoding into a box succeeds exactly when `T` decodes. The box holds the decoded value, and an error is `T`'s error. |
| `BoxInput.TryFromImplicitNull` | juniper/src/types/box.rs:191-193 | An absent value gives a box exactly when `T` accepts an absent value, with the same value or the same error. |
| `BoxInput.TryFromInputValueBoxes` | juniper/src/types/box.rs:168-172 | For every box `b` and error `e`: decoding gives `Ok(b)` iff `T` decodes to `b`'s content, and gives `Err(e)` iff `T` fails with `e`. Decoding produces nothing but a box around the newly decoded value. |
| `BoxInput.TryFromImplicitNullBoxes` | juniper/src/types/box.rs:174-176 | The same two equivalences hold for an absent value. |
| `BoxInput.RoundTrip` | juniper/src/types/box.rs:152-177 | When `T` round-trips a value, the box round-trips the box around it. |
| `BoxInput.DecodeItemsOfBoxes` | juniper/src/types/box.rs:185-189 | Converting list items as boxes is the same as converting them as `T` and boxing each one. The first error is the same. |
| `BoxInput.ArrayOfBoxes` | juniper/src/types/box.rs:179-194 | An array of boxes decodes like the array of their contents, with every element boxed and with the same error. A box around an array decodes like the array, boxed. |
| `BoxInput.ReflectAddsNoWrapper` | juniper/src/types/box.rs:268-290 | A box's reflected `NAME`, `NAMES` and `VALUE` are `T`'s. Boxing commutes with the array's list wrapping. |

## Left out

- `resolve_value` and `resolve_value_async`, for both adapters, are not modelled. So are the box's forwarding `resolve_concrete_value[_async]` and `resolve_field[_async]`. They hand over to the list-resolution helpers and the executor, which are not part of this model, and the async variants are futures.
- The array's `meta` is not modelled. It calls `Registry::wrap_list`, and the registry is not part of this model. The box's `meta` is modelled as a forward that threads an abstract registry value through.
- `assert_input_type`, `assert_output_type` and `assert_scalar` are compile-time marker calls with no behaviour.
- The box's `parse_scalar_token` forwarding is not modelled, because the parser is not part of this model.
- `MaybeUninit`, `assume_init`, `mem::transmute_copy` and `ManuallyDrop` are modelled abstractly:
  - A slot is `Uninit` or `Init(value)`.
  - Handing over the contents means setting `noDrop` and taking the written slots' values.
  - Memory layout is not modelled.
- A converter panic and the unwinding it causes are not modelled. The converter is a total pure function, so the abandon path is reached only through an element error. A panic would reach the same `Drop`.
- The array's `try_from_implicit_null` is not overridden in `array.rs`. The trait's default is not part of this model.
- `usize` counts are modelled as `nat`. The counts are lengths of in-memory lists, so no wrap-around is possible.
- `BoxInput.TryFromInputValue` and `BoxInput.TryFromImplicitNull` model the box's forwarding at juniper/src/types/box.rs:170-176 combined with the general conversion into a box at juniper/src/types/box.rs:179-194, so they cover a sized `T` only. The conversions into a box for an unsized `T` (such as `str` or `[U]`) are defined outside the box adapter and are not modelled; a converter `InputValue<S> -> Result<T, E>` cannot stand for them.
- `BoxInput.Box` is a value. Heap allocation, and so the freshness of the box that decoding returns, is not modelled. That decoding builds a new box around the newly decoded value and around nothing else is stated as an equation.
- `InputValue::list` and `Spanning::unlocated` are defined outside the modelled files. Items built by encoding get the zero span `Span(0, 0)` here.
- `reflect::wrap::list` is modelled as a wrapper constructor `ListOf`. Its numeric encoding is defined outside the modelled files and is not modelled.
- `FieldError` is modelled as a message plus optional extensions. A message-only error, as `String::into` makes one, has none.
- Two points of the code are easy to misread. The model follows the code on both:
  - A bare value is converted before `N` is checked. So a failing bare value gives `Item(e)` even when `N != 1`.
  - The null message is "Value cannot be \`null\`", with backticks.
