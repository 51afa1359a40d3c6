# stdluib strings, modelled in Dafny

`stdluib.h` is a single-header C toolkit with two cooperating string types:

- `String`: a growable byte buffer that owns its storage. It has a `calloc`ed block `ptr`, a `length` and a `capacity`. The block is always zero past the contents, and it is replaced by a block twice as large (or larger) when an append needs room.
- `StringView`: a non-owning `(ptr, length)` slice into bytes owned by someone else. It can be built from a C string, split on a byte or on a separator string, and trimmed at either end.

The model has four modules:

- `CStrings` (`cstrings.dfy`): the parts of C the toolkit relies on.
  - A C string is the memory block its pointer points into (`seq<char>`) and must contain a NUL.
  - `Strlen` gives the index of the first NUL.
  - `StrNCmpIsZero` is `strncmp(a, b, n) == 0`, read character by character and stopping at a NUL. `Bounded` gives its meaning.
  - `USizeSub` is subtraction on a 64-bit `size_t`, wrapping modulo 2^64.
- `StringViews` (`stringview.dfy`): the view is a datatype `StringView(base, start, len)`.
  - `base` is the whole block the view points into, and `start` is the pointer's offset in it.
  - This lets "the byte just past the view" and "`rhs` starts where `sv` ends" be stated.
  - The two split operations are methods with the source's scanning loops.
  - `create`, `char_at` and the trims are functions.
- `Strings` (`string_buffer.dfy`): `String` is a class with the fields `ptr: array?<char>`, `length` and `capacity`.
  - Growth allocates a fresh zero-filled array and copies the contents into it.
  - `Valid()` says `length < capacity == ptr.Length` and that every byte from `length` on is NUL.
  - `Contents()` is `ptr[..length]`.
- `Tests` (`tests.dfy`): the two scenarios of `tests.c`, written as client methods and proved to return 0.

## Model

| member | source | states |
|---|---|---|
| CStrings.Strlen | stdluib.h:79 | the length of a C string is the index of its first NUL: no NUL comes before it |
| CStrings.Chars | stdluib.h:263 | the characters `strlen` counts hold no NUL and, followed by a NUL, start the block |
| CStrings.StrlenOfTerminated | tests.c:20 | a NUL-free literal followed by its terminator has exactly its own characters as its C string |
| CStrings.StrNCmpMeaning | stdluib.h:203 | `strncmp(a, b, n) == 0` exactly when the two strings agree up to their terminators within the first `n` characters |
| CStrings.StrNCmpOnPlainChars | tests.c:36 | when `a` holds no NUL among its first `n` characters, `strncmp` returns 0 exactly when `b` has those same `n` characters |
| CStrings.USizeSub | stdluib.h:148 | `size_t` subtraction equals the difference when it is not negative, and wraps to 2^64 minus the deficit otherwise |
| StringViews.Create | stdluib.h:78-84 | the view starts at the string, spans exactly its characters before the NUL, and the byte just past it is that NUL |
| StringViews.CreateWithLength | stdluib.h:86-90 | the view spans exactly the first `len` bytes, NULs included, without scanning |
| StringViews.CharAt | stdluib.h:118-122 | as written: the byte at `pos` inside the view and NUL beyond `length`; at `pos == length` it returns the block's byte just past the view, so that byte must exist |
| StringViews.CharAtChecked | stdluib.h:118-122 | corrected guard: the byte at `pos` inside the view and NUL for every `pos >= length` |
| StringViews.CharAtAgreesAwayFromEnd | stdluib.h:118-122 | the written and corrected guards give the same byte at every position except `length` |
| StringViews.CharAtOnCString | stdluib.h:118-122 | on a view made by `stringview_create`, the written guard already returns the sentinel at `length`, because the NUL lies there |
| StringViews.CharAtReadsPastView | stdluib.h:118-122 | on the 5-byte view "hello" into "hello, world", `char_at(5)` gives ',' where every position from `length` on should give NUL |
| StringViews.Split | stdluib.h:124-141 | `lhs` starts at the view and holds no `c`. If `c` occurs, it sits just after `lhs`, `rhs` starts one past it, and `lhs ++ [c] ++ rhs` is the view. Otherwise `lhs` is the whole view and `rhs` is empty at its end |
| StringViews.SplitAtChar | stdluib.h:130-140 | the views built after the scan stops at the first `c` (or at the end) have all of `Split`'s properties |
| StringViews.FirstMatch | stdluib.h:148-153 | the scan's stopping point is at most the bound; below the bound the separator occurs there, and it occurs at no earlier position |
| StringViews.FirstMatchUnique | stdluib.h:148-153 | any position with `FirstMatch`'s characterisation is `FirstMatch` |
| StringViews.SplitStr | stdluib.h:143-168 | as written, with the separator no longer than the view: a match at the first position below `length - sep_len` gives `lhs` of that length with `lhs ++ sep ++ rhs == sv`; otherwise `lhs == sv` and `rhs` is empty at the end |
| StringViews.SplitStrFixed | stdluib.h:143-168 | corrected scan over every position where the separator fits: if the separator occurs, `lhs` ends at its first occurrence and `lhs ++ sep ++ rhs == sv`; if it occurs nowhere, `lhs == sv` and `rhs` is empty at the end |
| StringViews.ScanStep | stdluib.h:149 | `strncmp(separator, ptr + p, sep_len) == 0` at a position inside the view holds exactly when the separator occurs at `p` |
| StringViews.SplitAround | stdluib.h:155-160 | cutting the view around an occurrence of the separator gives two valid views whose concatenation with the separator is the view |
| StringViews.SplitStrMissesFinalPosition | stdluib.h:148 | in "ab" the separator "b" occurs at position 1, yet the scan bound `2 - 1` stops before trying it |
| StringViews.ScanBoundWraps | stdluib.h:148 | with a 1-byte view and a 2-byte separator the scan bound wraps to 2^64 - 1, so position 0 is tried although the separator reaches past the view's end there |
| StringViews.TrimLeft | stdluib.h:170-178 | for `count <= length`: the view keeps its end, starts `count` bytes later, and holds `sv[count..]` |
| StringViews.TrimRight | stdluib.h:180-187 | for `count <= length`: the view keeps its start and holds `sv[..length - count]` |
| StringViews.TrimPastEndWraps | stdluib.h:177 | the length both trims compute, `length - count` on `size_t` (also stdluib.h:186): trimming 5 bytes from a 3-byte view leaves length 2^64 - 2, longer than before, instead of 0 |
| StringViews.TrimLeftClamped | stdluib.h:170-178 | corrected clamp: it agrees with `TrimLeft` when `count <= length`, and trimming past the end gives an empty view at the old end |
| StringViews.TrimRightClamped | stdluib.h:180-187 | corrected clamp: it agrees with `TrimRight` when `count <= length`, and trimming past the end gives an empty view at the old start |
| StringViews.TrimBothSides | stdluib.h:170-187 | trimming `left` and `right` bytes keeps exactly the middle `sv[left..length - right]`, and the two trims commute |
| Strings.GrownCapacityIsLeastDoubling | stdluib.h:229-232 | the do-while loop doubles at least once and settles on `cap * 2^k` for the least `k >= 1` that exceeds the target |
| Strings.GrownCapacityIsLeast | stdluib.h:229-232 | every doubling `cap * 2^k` (k >= 1) above the target is at least the grown capacity |
| Strings.GrownCapacityAtMostTwiceTarget | stdluib.h:229-232 | when growth happens, the new capacity exceeds the target by at most a factor of two |
| Strings.CapacityForBounds | stdluib.h:226-232 | after growing to a length the capacity exceeds it and never shrinks; it is unchanged when already large enough and otherwise at most twice the length |
| Strings.String.Init | stdluib.h:206-218 | a fresh zero-filled block of capacity 8 and length 0: an empty, valid buffer |
| Strings.String.Destroy | stdluib.h:220-224 | the pointer is null and length and capacity are 0 |
| Strings.String.GrowToLength | stdluib.h:226-245 | contents and length are kept and the capacity exceeds `newLength`. It is a no-op when `newLength` is below the capacity; otherwise the capacity is the least doubling above `newLength` in a fresh zero-filled block |
| Strings.String.AppendChar | stdluib.h:247-260 | the contents become `old ++ [c]` with length + 1, the buffer stays valid (zero tail, spare byte) and grows as `string_grow_to_length` does |
| Strings.String.Append | stdluib.h:262-277 | the contents become `old ++` the C string's characters, with length + `strlen(str)` and the buffer still valid |
| Strings.String.AppendView | stdluib.h:279-298 | the contents become `old ++` the view's bytes with length + the view's length; an empty view leaves the capacity untouched |
| Strings.String.MakeView | stdluib.h:300-304 | the view starts at the block and spans exactly the contents; `char_at(length)` on it is the buffer's spare NUL |
| Strings.String.CompareStr | stdluib.h:202-204 | equality of the two strings up to their terminators within `length` characters; with no NUL in the contents, true exactly when `str` starts with the contents |
| Strings.String.CompareStrOnPlainContents | stdluib.h:202-204 | with no NUL in the contents, the bounded `strncmp` is "the literal's first `length` characters are the contents" |
| Strings.String.CompareStrExact | stdluib.h:202-204 | corrected comparison bounded by `length + 1`: with no NUL in the contents, true exactly when the literal's characters are the contents |
| Strings.String.CompareStrExactOnPlainContents | stdluib.h:202-204 | comparing `length + 1` characters also compares the buffer's spare NUL, so it checks that the literal ends where the contents end |
| Strings.BoundedOfTerminated | stdluib.h:203 | `strncmp` looks at exactly the characters before the first NUL, or at fewer when the bound is smaller |
| Strings.CompareStrOwnContents | tests.c:17-22 | a buffer without NUL bytes compares equal to the terminated literal of its contents |
| Strings.CompareStrAcceptsLongerLiteral | stdluib.h:202-204 | a literal that properly extends the contents compares equal as written and unequal after the correction |
| Strings.ViewToString | stdluib.h:189-196 | a fresh valid buffer holding exactly the view's bytes; viewing it gives those bytes back |
| Tests.TestString | tests.c:5-29 | the `test_string` scenario returns 0: an empty new buffer, then "hello", then "hello, world" comparing equal, then a destroyed buffer with length 0 and null pointer |
| Tests.AppendHello | tests.c:12-16 | five single-character appends to a new buffer hold "hello" without reallocating |
| Tests.TestStringView | tests.c:31-38 | the `test_stringview` scenario returns 0: a view created from "hello, world" matches it over its length |

## Left out

- Printing and debugging are not modelled: `stringview_print`, `stringview_debug_print`, `string_print`, the `debugf` call in `string_append_sv`, and the `ASSERT`/`debug` macros. They only write to stdout.
- Allocation always succeeds, and the `int` status results are not modelled:
  - `string_init`'s NULL branch (stdluib.h:212-215) prints to stderr and returns -1. It is not modelled, and both callers ignore that result (stdluib.h:191, tests.c:7).
  - In `string_grow_to_length`, the `memcpy` into the new block runs before its null check (stdluib.h:235-239).
  - The appends keep the grow's result in an unsigned `gr`, so their `gr < 0` branch never runs (stdluib.h:250-253, 265-268, 286-289).
- Strings.String.Destroy: `free` and the block leaked on every grow are not modelled, because a garbage-collected heap has no counterpart. `Destroyed()` only records the reset fields.
- Views are values, so a view does not dangle after the buffer it was taken from grows or is destroyed. `MakeView` copies the block's bytes, so later writes to the buffer do not show through it.
- StringViews.TrimLeft and StringViews.TrimRight: the C functions update the `StringView` struct through a pointer. The model returns the updated view instead, so aliasing of the struct is not captured. The same holds for the out-parameters of the two splits.
- `size_t` overflow of `new_capacity * 2` and of `length + added_len` is not modelled; lengths are unbounded `nat`. Subtraction wrap-around, which matters in `split_str` and the trims, is modelled by `USizeSub`.
- Strings.String.GrowToLength requires a valid buffer and so a positive capacity. On a zero-capacity buffer the C doubling loop would never end; that state is only reachable after `string_destroy`.
- The `SV_SPLIT` and `SV_SPLIT_STR` macros are declaration sugar around the two split calls and are not modelled.
- `main` in `tests.c` only calls the two test functions and is not modelled.
- StringViews.SplitStr requires the separator to be no longer than the view. Beyond that the bound wraps and the scan reads outside the view (`ScanBoundWraps`); `SplitStrFixed` handles that case.
- StringViews.TrimLeft and StringViews.TrimRight require `count <= length`. Beyond that the length wraps (`TrimPastEndWraps`); `TrimLeftClamped` and `TrimRightClamped` handle that case.
- The as-written members follow the code, bugs included. The corrected members use a working clamp in the trims, a guarded `split_str` bound that tries every fitting position, the `pos >= length` guard in `char_at` and a `length + 1` bound in `compare_str`.

## Findings

| source | as written | input that shows it | evidently intended | confidence | as-written member | corrected member |
|---|---|---|---|---|---|---|
| stdluib.h:170-187 | the clamp `if (length < count) chars_removed = count;` assigns `count` in both arms, so `length - count` wraps | a 3-byte view trimmed by 5 gets length 2^64 - 2 | remove `min(count, length)` bytes, leaving an empty view | high, not executed | StringViews.TrimPastEndWraps | StringViews.TrimLeftClamped |
| stdluib.h:180-187 | the same dead clamp in `stringview_trimr` | a 3-byte view trimmed by 5 from the right gets length 2^64 - 2 | an empty view at the old start | high, not executed | StringViews.TrimPastEndWraps | StringViews.TrimRightClamped |
| stdluib.h:148 | the loop bound `sv->length - sep_len` is unsigned and wraps when the separator is longer than the view | view "a", separator "ab": the bound is 2^64 - 1 | a separator longer than the view is not found | high, not executed | StringViews.ScanBoundWraps | StringViews.SplitStrFixed |
| stdluib.h:148 | positions `< length - sep_len` are tried, so the last position where the separator fits is skipped | view "ab", separator "b": no split, though "b" ends the view | try every position `<= length - sep_len` | high, not executed | StringViews.SplitStrMissesFinalPosition | StringViews.SplitStrFixed |
| stdluib.h:119 | the guard `pos > length` lets `pos == length` read the byte past the view | view "hello" into "hello, world": `char_at(5)` is ',' | NUL for every `pos >= length` | high, not executed | StringViews.CharAtReadsPastView | StringViews.CharAtChecked |
| stdluib.h:202-204 | `strncmp` bounded by the buffer's length ignores the rest of a longer literal | buffer "hello" against "hello, world" compares equal | equal only when the literal ends where the contents end | medium, not executed | Strings.CompareStrAcceptsLongerLiteral | Strings.String.CompareStrExact |
