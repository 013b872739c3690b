# quick::variant and quick::DebugStream in Dafny

This project models two small components of the `quick` C++ utility library and proves properties of them.

- **`quick::variant<Ts...>`** (`variant.dfy`, module `QuickVariant`) is a single-slot tagged union. It holds at most one live object, of one of the catalog types `Ts...`, together with the index of that type.
  - `at<i>(args...)` is get-or-construct.
  - The const `at<i>()` is a strict read that throws `runtime_error` unless the slot holds index `i`.
  - `clear()` empties the slot.
  - `initialized()` and `selected_type()` are queries. `selected_type()` answers the sentinel `sizeof...(Ts)` when the slot is empty.
  - The class `Variant<T>` keeps the two fields of the C++ object:
    - `ptr: Option<T>` is the owning pointer to the erased cell.
    - `selectedType` is `selected_type_`, which `clear()` leaves stale.
  - Every method is tied to the state machine `State = Empty | Holding(index, live)` and its functions `Construct`, `Read` and `ActiveIndex`. The lemmas are stated about that state machine.
  - The type catalog (`TypeListImpl`/`GetNthType`) is the function `slot`, which gives the catalog position of a value's type. `size` is `sizeof...(Ts)`.
- **`quick::DebugStream`** is an `std::ostringstream` that writes nested values as an indented, bracketed text tree. It is modelled in two modules:
  - `debug_stream.dfy`, module `QuickDebugStream`: the meaning of every operation as a function on the value `Stream(out, depth, inline, indent)`.
    - `depth` is `uint32_t` and wraps around.
    - `indent` is `uint8_t`.
    - The indentation is `depth*indentation_space` in 32-bit unsigned arithmetic.
    - `Render` gives the meaning of the free `operator<<` overloads. It writes a tree of printable values (`Value`): a scalar already rendered to text, a character, a string, an enum, a sequence container, a map, or a pair.
    - A `runtime_error` thrown by `BranchEnd` is the outcome `Threw(st)`, where `st` is the state the stream was left in.
  - `debug_stream_object.dfy`, module `QuickDebugStreamObject`: the `DebugStream` object.
    - Its methods update the text and the fields `isInline`, `indentationSpace` and `depth` in place, with the same loops as the C++ code.
    - The scope guards `ScopedInline` and `ScopedIndentation` (`ScopedControlsStruct<bool>` and `ScopedControlsStruct<uint8_t>`) set one field and write the original back when restored.
    - Each method is proved to perform the corresponding `Stream` function. Everything proved about `Render` therefore holds for what the object writes.

Map keys are written in one of two ways, selected by `KeyScope`:

- `AsWritten`: `is_inline` is forced to `true` for the key and then set to `false`. This is what the code does.
- `Scoped`: `is_inline` is set to `true` under a scope guard and restored afterwards. This is the evidently intended behaviour; see Findings.

## Model

| member | source | states |
|---|---|---|
| QuickVariant.ActiveIndex | include/quick/experiments/variant.hpp:74-80 | the active index is at most `sizeof...(Ts)`; it equals it exactly when the slot is empty, and is the held index otherwise |
| QuickVariant.Construct | include/quick/experiments/variant.hpp:52-59 | after get-or-construct at index i the slot holds index i |
| QuickVariant.Read | include/quick/experiments/variant.hpp:60-67 | a strict read of index i succeeds exactly when the slot holds index i and yields the live object; otherwise it is the runtime_error with the library's message |
| QuickVariant.ConstructThenRead | include/quick/experiments/variant.hpp:52-67 | reading index i after `at<i>` succeeds with the live object, and that object is the newly built one unless i was already held |
| QuickVariant.ConstructReuses | include/quick/experiments/variant.hpp:53-57 | a second `at<i>` with other arguments changes nothing; when i is already held the arguments are ignored |
| QuickVariant.ConstructSwitches | include/quick/experiments/variant.hpp:54-55 | switching from index i to j != i builds a fresh object of index j, after which reading i fails |
| QuickVariant.ConstructSelects | include/quick/experiments/variant.hpp:52-59 | after `at<i>` the variant is initialized and `selected_type()` is i |
| QuickVariant.EmptyRefusesReads | include/quick/experiments/variant.hpp:60-65 | an empty variant refuses every strict read with the runtime_error |
| QuickVariant.Variant.constructor | include/quick/experiments/variant.hpp:82-84 | a new variant has a null cell and `selected_type_ == 0`, so it is Empty |
| QuickVariant.Variant.At | include/quick/experiments/variant.hpp:52-59 | the cell is rebuilt around the new object exactly when it is null or holds another index, otherwise it is kept; `selected_type_` becomes i; the returned object is the live one; the cell's type matches `selected_type_` afterwards; when the construction on line 55 throws, the exception is the outcome and neither the cell nor `selected_type_` changes |
| QuickVariant.Variant.ConstAt | include/quick/experiments/variant.hpp:60-67 | succeeds exactly when the cell is non-null and `selected_type_ == i`, with an object of type i; it is the state machine's strict read and changes nothing |
| QuickVariant.Variant.Clear | include/quick/experiments/variant.hpp:68-70 | the cell becomes null and `selected_type_` keeps its stale value, so the state is Empty (and a second clear changes nothing) |
| QuickVariant.Variant.Initialized | include/quick/experiments/variant.hpp:71-73 | true exactly when the state holds an object |
| QuickVariant.Variant.SelectedType | include/quick/experiments/variant.hpp:74-80 | in `[0, sizeof...(Ts)]`, equal to `sizeof...(Ts)` exactly when not initialized, otherwise the index of the live object's type, whatever stale value `selected_type_` holds |
| QuickDebugStream.Spaces | tools/experiments/debug_stream.hpp:49-52 | `std::string(n, ' ')` has n characters, all spaces |
| QuickDebugStream.Pad | tools/experiments/debug_stream.hpp:51 | `depth*indentation_space` in uint32_t arithmetic is below 2^32 and is the plain product whenever that fits |
| QuickDebugStream.NaturalText | tools/experiments/debug_stream.hpp:151 | the decimal text of a non-negative integer is non-empty and made of digits |
| QuickDebugStream.NaturalTextValue | tools/experiments/debug_stream.hpp:151 | the decimal text of n reads back as n (`DigitsValue`, the most-significant-first reading of digits), and it starts with '0' only for n = 0 |
| QuickDebugStream.DecimalText | tools/experiments/debug_stream.hpp:151 | the decimal text of an integer is non-empty, has no newline, is digits after an optional leading '-', and starts with '-' exactly for negatives |
| QuickDebugStream.DecimalTextValue | tools/experiments/debug_stream.hpp:151 | the decimal text of n reads back as n (`SignedValue`), and its digits start with '0' only for n = 0 |
| QuickDebugStream.Int32 | tools/experiments/debug_stream.hpp:151 | `static_cast<int32_t>` gives the value in the int32 range that is congruent to the input modulo 2^32 |
| QuickDebugStream.Stream.Raw | tools/experiments/debug_stream.hpp:62-67 | a write to the underlying `std::ostringstream` appends its text and changes no layout control |
| QuickDebugStream.Stream.TabSpace | tools/experiments/debug_stream.hpp:49-52 | appends exactly `Pad(depth, indentation_space)` characters, all spaces, and changes no layout control |
| QuickDebugStream.Stream.PutChar | tools/experiments/debug_stream.hpp:54-60 | appends the character, and after '\n' also `Pad(depth, indentation_space)` spaces; changes no layout control |
| QuickDebugStream.Stream.BranchStart | tools/experiments/debug_stream.hpp:83-90 | keeps is_inline and indentation_space, increments depth modulo 2^32 exactly outside inline mode, writes the bracket first, and in inline mode writes only the bracket |
| QuickDebugStream.Stream.PutText | tools/experiments/debug_stream.hpp:69-81 | writing a string char by char only appends, and leaves depth, is_inline and indentation_space unchanged |
| QuickDebugStream.Stream.BranchEnd | tools/experiments/debug_stream.hpp:92-102 | throws exactly when not inline at depth 0, after writing the newline; otherwise, outside inline mode, depth decreases by one; in inline mode it writes only the character; is_inline and indentation_space are kept and text only grows |
| QuickDebugStream.Render | tools/experiments/debug_stream.hpp:148-215 | writing any value, whether or not it throws, leaves indentation_space as it was |
| QuickDebugStream.RenderItems | tools/experiments/debug_stream.hpp:166-170 | the loop over a container's items leaves indentation_space as it was |
| QuickDebugStream.RenderItem | tools/experiments/debug_stream.hpp:168 | one pass of the item loop leaves indentation_space as it was |
| QuickDebugStream.RenderEntries | tools/experiments/debug_stream.hpp:186-203 | the loop over a map's entries leaves indentation_space as it was |
| QuickDebugStream.RenderEntry | tools/experiments/debug_stream.hpp:188-202 | one map entry leaves indentation_space as it was |
| QuickDebugStream.EntrySeparator | tools/experiments/debug_stream.hpp:188-193 | the separator between map entries only appends text and changes no layout control |
| QuickDebugStream.EntrySeparatorText | tools/experiments/debug_stream.hpp:188-193 | the separator writes nothing before the first entry; otherwise it writes "," in inline mode, and ",", "\n" and `Pad(depth, indentation_space)` spaces outside it |
| QuickDebugStream.PutTextIndents | tools/experiments/debug_stream.hpp:49-81 | writing a string appends it with every '\n' followed by exactly `depth*indentation_space` (mod 2^32) spaces and every other character alone; the reference definition is `Indented` |
| QuickDebugStream.PutTextPlain | tools/experiments/debug_stream.hpp:69-81 | a string without a newline is appended exactly as it is |
| QuickDebugStream.PutNewline | tools/experiments/debug_stream.hpp:54-60 | writing "\n" appends it and the indentation of the current depth |
| QuickDebugStream.PutTextAppend | tools/experiments/debug_stream.hpp:69-81 | writing a + b is writing a, then b |
| QuickDebugStream.BranchStartText | tools/experiments/debug_stream.hpp:83-90 | in inline mode BranchStart appends only the bracket; otherwise it appends the bracket, a newline and the new indentation, and depth is incremented modulo 2^32 |
| QuickDebugStream.BranchEndText | tools/experiments/debug_stream.hpp:92-102 | when it does not throw, BranchEnd appends only the bracket in inline mode; otherwise it appends a newline, the indentation of depth-1 and the bracket, and decrements depth |
| QuickDebugStream.BranchAround | tools/experiments/debug_stream.hpp:83-102 | a BranchStart, some text and the matching BranchEnd in the same mode never throw and bring depth back to its start, writing the brackets with the layout of `Bracketed` |
| QuickDebugStream.EmptyContainers | tools/experiments/debug_stream.hpp:162-163 | an empty sequence container is written as exactly "[]" and an empty map as exactly "{}", with the layout unchanged |
| QuickDebugStream.RenderEnum | tools/experiments/debug_stream.hpp:148-153 | an enum is written as "ENUM-" followed by the decimal text of its value cast to int32_t |
| QuickDebugStream.RenderFundamental | tools/experiments/debug_stream.hpp:62-67 | a fundamental value goes straight to the underlying stream |
| QuickDebugStream.ItemsJoin | tools/experiments/debug_stream.hpp:166-170 | the loop over scalar items writes their texts separated by ", " |
| QuickDebugStream.ScalarSequence | tools/experiments/debug_stream.hpp:156-174 | a non-empty container of scalars is written as "[", the items joined by ", ", "]", with a newline and indentation inside the brackets outside inline mode, and never throws |
| QuickDebugStream.ScalarPair | tools/experiments/debug_stream.hpp:209-215 | a pair of scalars is written as "(", the first, ", ", the second, ")", with the bracket layout of `Bracketed`, and never throws |
| QuickDebugStream.ScalarEntryStep | tools/experiments/debug_stream.hpp:188-202 | one scalar map entry writes the separator, then key, ": " and value; is_inline is afterwards restored under the guard and false as written |
| QuickDebugStream.ScalarEntries | tools/experiments/debug_stream.hpp:186-203 | the loop over scalar entries writes them as "key: value" joined by the separator the layout after the first key calls for, and never throws |
| QuickDebugStream.ScalarEntryAfter | tools/experiments/debug_stream.hpp:188-202 | a later scalar entry appends the separator and its own text to what the loop wrote before it |
| QuickDebugStream.ScalarMap | tools/experiments/debug_stream.hpp:177-207 | a non-empty map of scalars (written with restoring key guards, or to a stream that is not inline) is written as "{", the entries joined by "," (and outside inline mode a newline and the deeper indentation), "}", and never throws |
| QuickDebugStream.EntriesPrefixStep | tools/experiments/debug_stream.hpp:187-203 | after the entry loop has reached a state, one more pass continues from it |
| QuickDebugStream.ItemsThrowAbsorbs | tools/experiments/debug_stream.hpp:165-171 | once an item throws, the rest of the sequence loop does not run and the exception is the outcome |
| QuickDebugStream.EntriesThrowAbsorbs | tools/experiments/debug_stream.hpp:185-204 | once a map entry throws, the rest of the map loop does not run |
| QuickDebugStream.RenderExtends | tools/experiments/debug_stream.hpp:148-215 | writing any value only appends to the text, whether or not it throws |
| QuickDebugStream.PairExtends | tools/experiments/debug_stream.hpp:209-215 | writing a pair only appends to the text |
| QuickDebugStream.ItemsExtend | tools/experiments/debug_stream.hpp:166-170 | the loop over a container's items only appends |
| QuickDebugStream.EntriesExtend | tools/experiments/debug_stream.hpp:186-203 | the loop over a map's entries only appends |
| QuickDebugStream.EntryExtends | tools/experiments/debug_stream.hpp:188-202 | one map entry only appends |
| QuickDebugStream.InlineAfterRender | tools/experiments/debug_stream.hpp:194-199 | as written, a value that holds a non-empty map leaves is_inline false, and any other value leaves it unchanged |
| QuickDebugStream.InlineAfterItems | tools/experiments/debug_stream.hpp:166-170 | as written, after the item loop is_inline is its old value unless some item holds a non-empty map |
| QuickDebugStream.InlineAfterEntries | tools/experiments/debug_stream.hpp:186-203 | as written, after a non-empty entry loop is_inline is false |
| QuickDebugStream.InlineAfterEntry | tools/experiments/debug_stream.hpp:194-202 | as written, after one map entry is_inline is false |
| QuickDebugStream.NonEmptyMapClearsInline | tools/experiments/debug_stream.hpp:194-199 | as written, after any non-empty map is_inline is false |
| QuickDebugStream.InlineScalarMapThrows | tools/experiments/debug_stream.hpp:194-204 | as written, a non-empty map of scalars written to an inline stream at depth 0 switches to ",\n" separators after its first key and throws at its closing `BranchEnd` |
| QuickDebugStream.InlineMapThrows | tools/experiments/debug_stream.hpp:194-204 | as written, `std::map<int, int>{{1, 2}}` written to an inline DebugStream throws "Invalid BranchEnd" after writing `{1: 2\n` |
| QuickDebugStream.NestedMapKeyThrows | tools/experiments/debug_stream.hpp:194-199 | as written, a map whose key is a non-empty map, written to a fresh stream, throws "Invalid BranchEnd" after writing `{\n  {1: 2\n}: 3\n` |
| QuickDebugStream.NestedMapKeyScoped | tools/experiments/debug_stream.hpp:194-199 | with is_inline restored after the key, the same map is written as `{\n  {1: 2}: 3\n}` and depth returns to 0 |
| QuickDebugStream.ScopedRenderBalanced | tools/experiments/debug_stream.hpp:148-215 | with map keys written under a restoring guard, writing any value never throws and leaves depth and is_inline as they were, provided depth cannot wrap |
| QuickDebugStream.BranchStartKeepsRoom | tools/experiments/debug_stream.hpp:83-90 | BranchStart with room for one more level keeps is_inline and indentation_space and raises depth by one outside inline mode, without wrapping |
| QuickDebugStream.ScopedItemsBalanced | tools/experiments/debug_stream.hpp:166-170 | the item loop under restoring map keys never throws and keeps depth and is_inline |
| QuickDebugStream.ScopedEntriesBalanced | tools/experiments/debug_stream.hpp:186-203 | the entry loop under restoring map keys never throws and keeps depth and is_inline |
| QuickDebugStream.ScopedEntryBalanced | tools/experiments/debug_stream.hpp:188-202 | one entry under a restoring key guard never throws and keeps depth and is_inline |
| QuickDebugStream.ModesAgreeWithoutMaps | tools/experiments/debug_stream.hpp:194-199 | the two ways of writing map keys differ only on values that hold a non-empty map |
| QuickDebugStream.ItemsAgreeWithoutMaps | tools/experiments/debug_stream.hpp:166-170 | the same, for the item loop |
| QuickDebugStream.MapFreeRenderBalanced | tools/experiments/debug_stream.hpp:156-215 | as written, a value without maps never throws and restores depth and is_inline |
| QuickDebugStreamObject.DebugStream.constructor | tools/experiments/debug_stream.hpp:33-47 | a new stream has empty text, is_inline false, indentation_space 2 and depth 0 |
| QuickDebugStreamObject.DebugStream.PutRaw | tools/experiments/debug_stream.hpp:62-67 | a fundamental's text is appended to the underlying stream and nothing else changes |
| QuickDebugStreamObject.DebugStream.TabSpace | tools/experiments/debug_stream.hpp:49-52 | appends `depth*indentation_space` (mod 2^32) spaces |
| QuickDebugStreamObject.DebugStream.PutChar | tools/experiments/debug_stream.hpp:54-60 | appends the character, and after '\n' the indentation |
| QuickDebugStreamObject.DebugStream.PutText | tools/experiments/debug_stream.hpp:69-81 | the loop writes the string char by char, performing `Stream.PutText` |
| QuickDebugStreamObject.DebugStream.BranchStart | tools/experiments/debug_stream.hpp:83-90 | performs `Stream.BranchStart` in place |
| QuickDebugStreamObject.DebugStream.BranchEnd | tools/experiments/debug_stream.hpp:92-102 | reports the throw exactly when `Stream.BranchEnd` throws, leaving the stream in the state it describes |
| QuickDebugStreamObject.DebugStream.SetInline | tools/experiments/debug_stream.hpp:133-136 | changes is_inline and nothing else |
| QuickDebugStreamObject.DebugStream.SetIndentation | tools/experiments/debug_stream.hpp:138-141 | changes indentation_space and nothing else |
| QuickDebugStreamObject.DebugStream.SetInlineForThisScope | tools/experiments/debug_stream.hpp:125-127 | sets is_inline and returns a fresh guard bound to this stream that remembers the old value |
| QuickDebugStreamObject.DebugStream.SetIndentationForThisScope | tools/experiments/debug_stream.hpp:129-131 | sets indentation_space and returns a fresh guard that remembers the old value |
| QuickDebugStreamObject.DebugStream.Write | tools/experiments/debug_stream.hpp:148-215 | writing a value in place reports a throw exactly when `Render` throws and leaves the stream in `Render`'s state |
| QuickDebugStreamObject.DebugStream.WriteSequence | tools/experiments/debug_stream.hpp:156-174 | the container loop performs `Render` of the container; `is_first_item` is the loop index being 0 |
| QuickDebugStreamObject.DebugStream.WriteItem | tools/experiments/debug_stream.hpp:168 | one pass of the container loop performs `RenderItem` |
| QuickDebugStreamObject.DebugStream.WriteMapping | tools/experiments/debug_stream.hpp:177-207 | writing a map in place performs `Render` of the map |
| QuickDebugStreamObject.DebugStream.WriteEntries | tools/experiments/debug_stream.hpp:186-203 | the map loop, up to the first entry that throws, performs `RenderEntries`; `is_first_item` is the loop index being 0 |
| QuickDebugStreamObject.DebugStream.WriteEntry | tools/experiments/debug_stream.hpp:188-202 | one pass of the map loop performs `RenderEntry`, with the key under a scope guard in the Scoped mode |
| QuickDebugStreamObject.ScopedInline.constructor | tools/experiments/debug_stream.hpp:109-114 | remembers the original is_inline and sets the new value, changing nothing else |
| QuickDebugStreamObject.ScopedInline.Restore | tools/experiments/debug_stream.hpp:115-119 | writes the original is_inline back and changes nothing else |
| QuickDebugStreamObject.ScopedIndentation.constructor | tools/experiments/debug_stream.hpp:109-114 | remembers the original indentation_space and sets the new value |
| QuickDebugStreamObject.ScopedIndentation.Restore | tools/experiments/debug_stream.hpp:115-119 | writes the original indentation_space back |

## Left out

- Heap allocation, `unique_ptr` ownership and the virtual destructor of `AbstractBaseType` (variant.hpp:13-22, 83) are left out. The erased cell is an `Option`, and destruction is implicit.
- The compile-time lookup `TypeListImpl`/`GetNthType` (variant.hpp:25-41) is the catalog function `slot`. An index outside the catalog, which C++ rejects at compile time, is a precondition `i < size`.
- QuickVariant.Variant.At: the arguments `args...` are represented by the outcome `built` that `new NthTypeWrapper<i>(args...)` would have (the object, or None when its constructor or the allocation throws), because constructors are foreign code. The exception itself is the result None.
- QuickVariant.Variant.At: the mutable reference it returns is a value, because later writes through that reference are the caller's code.
- Copying or moving a variant, or a DebugStream (`DebugStream(const DebugStream&)`), is left out, because the model has no aliasing of the cell.
- `std::ostringstream` formatting of fundamental types (debug_stream.hpp:62-67) is left out, floating point in particular. A scalar is written as its already-rendered text (`Fundamental`). The enum case uses the decimal text of the `int32_t`.
- The SFINAE dispatch through `quick::is_specialization` is left out. `quick/type_traits.hpp` is not part of this model. The printable shapes are the constructors of `Value`.
- `std::vector`, `std::list`, `std::set` and `std::unordered_set` are all `Sequence`, and both map types are `Mapping`. Each holds its elements in iteration order, because the order of the unordered containers is implementation-defined.
- The hook for user types with a `DebugStream(ds)` member (debug_stream.hpp:217-229) is left out, because it calls foreign code.
- `operator<<(const char*)` stops at the terminating NUL. The model's strings have no terminator, so a `const char*` is the characters before its NUL and is written like `std::string`.
- The templated constructor and `Consume` (debug_stream.hpp:35-43) are left out. They are `Write` on a new stream and `Write`.
- The message of the thrown `runtime_error` is the constant `InvalidBranchEndMessage`. The outcome `Threw` records the state the stream was left in, but not the message.
- The null check on `restore_pointer` in the guard's destructor (debug_stream.hpp:116) is left out, because both guards are always built from the address of a field.
- The guard's destructor running at the end of its C++ scope is an explicit call to `Restore`.
- Thread safety is left out; the source disclaims it at debug_stream.hpp:26.
- QuickDebugStream.ScopedRenderBalanced requires `depth` plus the value's nesting depth to stay below 2^32. Beyond that, the uint32_t depth, which is modelled with its wrap-around, would wrap and the layout would no longer balance.

## Findings

| source | as written | input that shows it | evidently intended | confidence | as-written member | corrected member |
|---|---|---|---|---|---|---|
| tools/experiments/debug_stream.hpp:194-199 | the map key is written with `is_inline` forced to true and then set to false, not restored to its value before the key | `std::map<std::map<int, int>, int>{{{{1, 2}}, 3}}` written to a new DebugStream: the inner map's key sets `is_inline` to false, so the inner `}` closes the outer level, and the outer `BranchEnd` throws "Invalid BranchEnd" at depth 0; more simply, `std::map<int, int>{{1, 2}}` written to a new DebugStream after `SetInline(true)` throws after writing `{1: 2\n` (`InlineMapThrows`) | `is_inline` set to true for the key and restored when the key's block ends, which takes the guard that `SetInlineForThisScope(true)` returns bound to a named variable (`auto guard = ds.SetInlineForThisScope(true);`) inside the block; the commented-out bare call on line 195 would restore at once, because its temporary guard is destroyed at the end of that statement (lines 115-119, 125-127); the map is then written as `{\n  {1: 2}: 3\n}` | not executed | QuickDebugStream.NestedMapKeyThrows | QuickDebugStream.ScopedRenderBalanced |

`Render`, `Write` and the map loops take the key mode as the parameter `KeyScope`. `AsWritten` is the code as written. `Scoped` is the corrected behaviour, which the balance lemmas `ScopedRenderBalanced`, `ScopedItemsBalanced`, `ScopedEntriesBalanced` and `ScopedEntryBalanced` are proved about. `NestedMapKeyScoped` shows the corrected output for the same input. `InlineScalarMapThrows` generalises the shorter witness: as written, every non-empty map of scalars written to an inline stream at depth 0 throws, while `ScalarMap` gives the text of the same map with restoring key guards.
