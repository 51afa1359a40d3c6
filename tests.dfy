/**
 * The checks of the repository's test driver, as clients of the model: each
 * returns 0 when every check holds and 1 as soon as one fails, and each is
 * proved to return 0.
 */
module Tests {
  import opened CStrings
  import opened StringViews
  import opened Strings

  /** `test_string`: build "hello" a character at a time, append ", world", compare, destroy. */
  method TestString() returns (status: int)
    ensures status == 0
  {
    var str := new String.Init();
    var ok := str.ptr != null && str.length == 0;

    AppendHello(str);
    assert str.Contents() == "hello";
    var eqStart := str.CompareStr("hello" + [NUL]);
    CompareStrOwnContents(str, "hello");
    ok := ok && eqStart;

    StrlenOfTerminated(", world");
    str.Append(", world" + [NUL]);
    assert str.Contents() == "hello, world";
    var eqEnd := str.CompareStr("hello, world" + [NUL]);
    CompareStrOwnContents(str, "hello, world");
    ok := ok && eqEnd;

    str.Destroy();
    ok := ok && str.length == 0 && str.ptr == null;

    status := if ok then 0 else 1;
  }

  /** The five `string_append_char` calls of `test_string`. */
  method AppendHello(str: String)
    requires str.Valid() && str.length == 0 && str.capacity == DefaultCapacity
    modifies str, str.ptr
    ensures str.Valid() && str.Contents() == "hello" && str.capacity == DefaultCapacity
    ensures str.ptr == old(str.ptr)
  {
    str.AppendChar('h');
    str.AppendChar('e');
    str.AppendChar('l');
    str.AppendChar('l');
    str.AppendChar('o');
  }

  /** `test_stringview`: a view made from a C string matches that string over the view's length. */
  method TestStringView() returns (status: int)
    ensures status == 0
  {
    var str := "hello, world" + [NUL];
    var sv := Create(str);
    StrNCmpOnPlainChars(sv.base[sv.start..], str, sv.len);
    var eq := StrNCmpIsZero(sv.base[sv.start..], str, sv.len);
    status := if eq then 0 else 1;
  }
}
