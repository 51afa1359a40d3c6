/**
 * `String`: a growable, owned, zero-filled byte buffer.
 *
 * The block `ptr` comes from `calloc` and is replaced by a larger one when an
 * append needs room; the buffer always keeps at least one spare zero byte
 * after its contents, so the bytes from `length` on are NUL.
 */
module Strings {
  import opened CStrings
  import opened StringViews

  /** The capacity `string_init` allocates. */
  const DefaultCapacity: nat := 8

  /** 2^k. */
  function Pow2(k: nat): (p: nat)
    ensures 1 <= p
  {
    if k == 0 then 1 else 2 * Pow2(k - 1)
  }

  lemma {:induction false} Pow2Monotone(j: nat, k: nat)
    requires j <= k
    ensures Pow2(j) <= Pow2(k)
    decreases k
  {
    if j < k {
      Pow2Monotone(j, k - 1);
    }
  }

  /** The `while` half of the doubling loop: double `cap` until it exceeds `target`. */
  function DoubleUntilAbove(cap: nat, target: nat): nat
    requires 0 < cap
    decreases target - cap
  {
    if target < cap then cap else DoubleUntilAbove(2 * cap, target)
  }

  /** How many times the doubling loop, started at `cap`, runs its body. */
  function Doublings(cap: nat, target: nat): nat
    requires 0 < cap
    decreases target - cap
  {
    if target < 2 * cap then 1 else 1 + Doublings(2 * cap, target)
  }

  /** The capacity the `do`-`while` doubling loop of `string_grow_to_length` settles on. */
  function GrownCapacity(cap: nat, target: nat): nat
    requires 0 < cap
  {
    DoubleUntilAbove(2 * cap, target)
  }

  /** The capacity after `string_grow_to_length(target)` on a buffer of capacity `cap`. */
  function CapacityFor(cap: nat, target: nat): nat
    requires 0 < cap
  {
    if target < cap then cap else GrownCapacity(cap, target)
  }

  /**
   * The grown capacity is `cap` doubled `k >= 1` times, for the least such
   * `k` that makes it exceed `target`.
   */
  lemma {:induction false} GrownCapacityIsLeastDoubling(cap: nat, target: nat)
    requires 0 < cap
    ensures 1 <= Doublings(cap, target)
    ensures GrownCapacity(cap, target) == cap * Pow2(Doublings(cap, target))
    ensures target < GrownCapacity(cap, target)
    ensures forall j :: 1 <= j < Doublings(cap, target) ==> cap * Pow2(j) <= target
    decreases target - cap
  {
    if target >= 2 * cap {
      GrownCapacityIsLeastDoubling(2 * cap, target);
      var k := Doublings(2 * cap, target);
      assert GrownCapacity(cap, target) == GrownCapacity(2 * cap, target);
      DoubledOnce(cap, k);
      forall j | 2 <= j < k + 1
        ensures cap * Pow2(j) <= target
      {
        DoubledOnce(cap, j - 1);
      }
    } else {
      assert Pow2(1) == 2;
    }
  }

  /** Doubling `cap` first and then `k` times is doubling it `k + 1` times. */
  lemma DoubledOnce(cap: nat, k: nat)
    ensures cap * Pow2(k + 1) == (2 * cap) * Pow2(k)
  {
    assert Pow2(k + 1) == 2 * Pow2(k);
  }

  /** No smaller doubling of `cap` would do: every `cap * 2^k` (k >= 1) above `target` is at least the grown capacity. */
  lemma GrownCapacityIsLeast(cap: nat, target: nat, k: nat)
    requires 0 < cap && 1 <= k && target < cap * Pow2(k)
    ensures GrownCapacity(cap, target) <= cap * Pow2(k)
  {
    GrownCapacityIsLeastDoubling(cap, target);
    var d := Doublings(cap, target);
    if d <= k {
      Pow2Monotone(d, k);
      MulMonotone(cap, Pow2(d), Pow2(k));
    }
  }

  lemma MulMonotone(a: nat, x: nat, y: nat)
    requires x <= y
    ensures a * x <= a * y
  {
  }

  /** Growth at most doubles the room needed: when it happens, the new capacity is at most twice the target. */
  lemma {:induction false} GrownCapacityAtMostTwiceTarget(cap: nat, target: nat)
    requires 0 < cap <= target
    ensures target < GrownCapacity(cap, target) <= 2 * target
    decreases target - cap
  {
    if 2 * cap <= target {
      GrownCapacityAtMostTwiceTarget(2 * cap, target);
      assert GrownCapacity(cap, target) == GrownCapacity(2 * cap, target);
    }
  }

  /** `string_grow_to_length` keeps the capacity when it already exceeds the target and otherwise grows past the target. */
  lemma CapacityForBounds(cap: nat, target: nat)
    requires 0 < cap
    ensures target < CapacityFor(cap, target) && cap <= CapacityFor(cap, target)
    ensures target < cap ==> CapacityFor(cap, target) == cap
    ensures cap <= target ==> CapacityFor(cap, target) <= 2 * target
  {
    if cap <= target {
      GrownCapacityIsLeastDoubling(cap, target);
      GrownCapacityAtMostTwiceTarget(cap, target);
      assert cap <= cap * Pow2(Doublings(cap, target));
    }
  }

  class String {
    var ptr: array?<char>
    var length: nat
    var capacity: nat

    /** A live buffer: its block holds `capacity` bytes, the contents leave at least one byte spare, and every byte past them is zero. */
    ghost predicate Valid()
      reads this, ptr
    {
      ptr != null && capacity == ptr.Length && length < capacity
      && forall i :: length <= i < capacity ==> ptr[i] == NUL
    }

    /** The state `string_destroy` leaves behind. */
    ghost predicate Destroyed()
      reads this
    {
      ptr == null && length == 0 && capacity == 0
    }

    /** The bytes the buffer holds. */
    ghost function Contents(): seq<char>
      reads this, ptr
      requires Valid()
    {
      ptr[..length]
    }

    /** `string_init`: capacity 8, empty, storage from `calloc`. */
    constructor Init()
      ensures Valid() && fresh(ptr)
      ensures length == 0 && capacity == DefaultCapacity && Contents() == []
      ensures forall i :: 0 <= i < capacity ==> ptr[i] == NUL
    {
      capacity := DefaultCapacity;
      length := 0;
      ptr := new char[DefaultCapacity](_ => NUL);
    }

    /** `string_destroy`: the block is released and the fields reset. */
    method Destroy()
      modifies this
      ensures Destroyed()
    {
      capacity, length := 0, 0;
      ptr := null;
    }

    /**
     * `string_grow_to_length`: nothing happens while `newLength` is below the
     * capacity; otherwise the capacity is doubled until it exceeds
     * `newLength`, and the contents move to a fresh zero-filled block.
     */
    method GrowToLength(newLength: nat)
      requires Valid()
      modifies this
      ensures Valid() && length == old(length) && Contents() == old(Contents())
      ensures newLength < capacity
      ensures capacity == CapacityFor(old(capacity), newLength)
      ensures newLength < old(capacity) ==> ptr == old(ptr) && capacity == old(capacity)
      ensures old(capacity) <= newLength ==> fresh(ptr)
    {
      if newLength < capacity {
        return;
      }

      var newCapacity := capacity * 2;
      while newCapacity <= newLength
        invariant 0 < newCapacity
        invariant DoubleUntilAbove(newCapacity, newLength) == GrownCapacity(capacity, newLength)
        decreases newLength - newCapacity
      {
        newCapacity := newCapacity * 2;
      }

      var newPtr := new char[newCapacity](_ => NUL);
      forall i | 0 <= i < length {
        newPtr[i] := ptr[i];
      }

      capacity := newCapacity;
      ptr := newPtr;
    }

    /** `string_append_char`: `c` is written just past the contents. */
    method AppendChar(c: char)
      requires Valid()
      modifies this, ptr
      ensures Valid()
      ensures Contents() == old(Contents()) + [c] && length == old(length) + 1
      ensures old(length) + 1 < old(capacity) ==> ptr == old(ptr) && capacity == old(capacity)
      ensures old(capacity) <= old(length) + 1 ==> fresh(ptr)
      ensures capacity == CapacityFor(old(capacity), old(length) + 1)
    {
      var newLength := length + 1;
      GrowToLength(newLength);

      ptr[length] := c;
      length := newLength;
    }

    /** `string_append`: the characters of the C string `str`, up to its NUL, are copied after the contents. */
    method Append(str: seq<char>)
      requires Valid() && IsCString(str)
      modifies this, ptr
      ensures Valid()
      ensures Contents() == old(Contents()) + Chars(str) && length == old(length) + Strlen(str)
      ensures old(length) + Strlen(str) < old(capacity) ==> ptr == old(ptr) && capacity == old(capacity)
      ensures old(capacity) <= old(length) + Strlen(str) ==> fresh(ptr)
      ensures capacity == CapacityFor(old(capacity), old(length) + Strlen(str))
    {
      var addedLen := Strlen(str);
      var newLength := length + addedLen;
      GrowToLength(newLength);

      forall i | 0 <= i < addedLen {
        ptr[length + i] := str[i];
      }
      length := newLength;
    }

    /** `string_append_sv`: the view's bytes are copied after the contents; an empty view changes nothing. */
    method AppendView(sv: StringView)
      requires Valid() && sv.Valid()
      modifies this, ptr
      ensures Valid()
      ensures Contents() == old(Contents()) + sv.Bytes() && length == old(length) + sv.len
      ensures old(length) + sv.len < old(capacity) ==> ptr == old(ptr) && capacity == old(capacity)
      ensures old(capacity) <= old(length) + sv.len ==> fresh(ptr)
      ensures 0 < sv.len ==> capacity == CapacityFor(old(capacity), old(length) + sv.len)
    {
      if sv.len == 0 {
        return;
      }

      var addedLen := sv.len;
      var newLength := length + addedLen;
      GrowToLength(newLength);

      forall i | 0 <= i < addedLen {
        ptr[length + i] := sv.base[sv.start + i];
      }
      length := newLength;
    }

    /** `string_make_view`: the view lends the contents out; the byte just past them is the buffer's spare NUL. */
    function MakeView(): (sv: StringView)
      reads this, ptr
      requires Valid()
      ensures sv.Valid() && sv.start == 0 && sv.len == length && |sv.base| == capacity
      ensures sv.Bytes() == Contents()
      ensures CharAt(sv, length) == NUL
    {
      StringView(ptr[..], 0, length)
    }

    /**
     * `string_compare_str` as written: `strncmp` bounded by the buffer's
     * length. It agrees with `str` on the contents' C-string prefix, so with
     * no NUL in the contents it accepts any `str` that starts with them.
     */
    function CompareStr(str: seq<char>): (eq: bool)
      reads this, ptr
      requires Valid() && IsCString(str)
      ensures eq <==> Bounded(ptr[..], length) == Bounded(str, length)
      ensures NUL !in Contents() ==> (eq <==> length <= Strlen(str) && str[..length] == Contents())
    {
      StrNCmpMeaning(ptr[..], str, length);
      CompareStrOnPlainContents(str);
      StrNCmpIsZero(ptr[..], str, length)
    }

    lemma CompareStrOnPlainContents(str: seq<char>)
      requires Valid() && IsCString(str)
      ensures NUL !in Contents() ==>
                (StrNCmpIsZero(ptr[..], str, length) <==> length <= Strlen(str) && str[..length] == Contents())
    {
      if NUL in Contents() {
        return;
      }
      assert ptr[..][..length] == Contents();
      StrNCmpOnPlainChars(ptr[..], str, length);
      var n := Strlen(str);
      if length <= n {
        assert length <= |str|;
      }
    }

    /**
     * `string_compare_str` with the comparison reaching the terminators:
     * bounding `strncmp` by `length + 1` also compares the buffer's spare NUL,
     * so the literal must end where the contents do.
     */
    function CompareStrExact(str: seq<char>): (eq: bool)
      reads this, ptr
      requires Valid() && IsCString(str)
      ensures NUL !in Contents() ==> (eq <==> Chars(str) == Contents())
    {
      CompareStrExactOnPlainContents(str);
      StrNCmpIsZero(ptr[..], str, length + 1)
    }

    lemma CompareStrExactOnPlainContents(str: seq<char>)
      requires Valid() && IsCString(str)
      ensures NUL !in Contents() ==> (StrNCmpIsZero(ptr[..], str, length + 1) <==> Chars(str) == Contents())
    {
      if NUL in Contents() {
        return;
      }
      var n := Strlen(str);
      assert ptr[..][..length] == Contents();
      StrNCmpMeaning(ptr[..], str, length + 1);
      BoundedOfTerminated(ptr[..], length, length + 1);
      BoundedOfTerminated(str, n, length + 1);
    }
  }

  /** When the first NUL at `mem` is at `n`, `strncmp` sees the `n` characters before it (or fewer, if `bound` is smaller). */
  lemma {:induction false} BoundedOfTerminated(mem: seq<char>, n: nat, bound: nat)
    requires n < |mem| && mem[n] == NUL && NUL !in mem[..n]
    ensures Bounded(mem, bound) == mem[..if bound < n then bound else n]
    decreases bound
  {
    if bound > 0 && n > 0 {
      assert mem[0] == mem[..n][0];
      assert NUL !in mem[1..][..n - 1] by {
        assert mem[1..][..n - 1] == mem[..n][1..];
      }
      BoundedOfTerminated(mem[1..], n - 1, bound - 1);
      var m := if bound < n then bound else n;
      assert mem[..m] == [mem[0]] + mem[1..][..m - 1];
    }
  }

  /** A buffer without NUL bytes compares equal to the literal spelling its contents. */
  lemma CompareStrOwnContents(st: String, s: seq<char>)
    requires st.Valid() && NUL !in s && st.Contents() == s
    ensures st.CompareStr(s + [NUL])
  {
    StrlenOfTerminated(s);
    assert (s + [NUL])[..st.length] == s;
  }

  /**
   * Finding: a literal that merely starts with the contents compares equal,
   * as "hello, world" does against a buffer holding "hello".
   */
  lemma CompareStrAcceptsLongerLiteral(st: String, str: seq<char>)
    requires st.Valid() && NUL !in st.Contents() && IsCString(str)
    requires st.Contents() < Chars(str)
    ensures st.CompareStr(str)
    ensures !st.CompareStrExact(str)
  {
    assert str[..st.length] == Chars(str)[..st.length];
  }

  /** `stringview_to_string`: a fresh buffer holding a copy of the view's bytes; viewing it gives those bytes back. */
  method ViewToString(sv: StringView) returns (st: String)
    requires sv.Valid()
    ensures fresh(st) && st.Valid()
    ensures st.Contents() == sv.Bytes()
    ensures st.MakeView().Bytes() == sv.Bytes()
  {
    st := new String.Init();
    st.AppendView(sv);
  }
}
