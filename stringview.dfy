/**
 * `StringView`: a non-owning `(ptr, length)` slice of someone else's memory.
 *
 * The pointer is modelled as a memory block `base` together with an offset
 * `start` into it, so that "this view starts where that one ends" can be said.
 * A view is a plain value, as the C struct is; operations that update a view
 * through a pointer return the updated value.
 */
module StringViews {
  import opened CStrings

  datatype StringView = StringView(base: seq<char>, start: nat, len: nat) {
    /** The half-open range `[ptr, ptr + length)` lies inside the block. */
    predicate Valid() {
      start + len <= |base|
    }

    /** Offset of the first byte past the view. */
    function End(): nat {
      start + len
    }

    /** The bytes the view spans. */
    function Bytes(): seq<char>
      requires Valid()
    {
      base[start..start + len]
    }
  }

  /** A slice of a slice is a slice of the whole. */
  lemma SliceOfSlice(s: seq<char>, i: nat, j: nat, a: nat, b: nat)
    requires i <= j <= |s| && a <= b <= j - i
    ensures s[i..j][a..b] == s[i + a..i + b]
  {
    var t := s[i..j][a..b];
    assert |t| == b - a;
    forall m | 0 <= m < b - a
      ensures t[m] == s[i + a + m]
    {
    }
  }

  /** Two adjacent slices join into one. */
  lemma JoinSlices(s: seq<char>, a: nat, m: nat, b: nat)
    requires a <= m <= b <= |s|
    ensures s[a..m] + s[m..b] == s[a..b]
  {
    var t := s[a..m] + s[m..b];
    assert |t| == b - a;
    forall k | 0 <= k < b - a
      ensures t[k] == s[a + k]
    {
      if k < m - a {
        assert t[k] == s[a..m][k];
      } else {
        assert t[k] == s[m..b][k - (m - a)];
      }
    }
  }

  /** `stringview_create`: the view spans the string's characters, up to but excluding its NUL. */
  function Create(str: seq<char>): (sv: StringView)
    requires IsCString(str)
    ensures sv.Valid() && sv.start == 0 && sv.base == str
    ensures sv.Bytes() == Chars(str) && NUL !in sv.Bytes()
    ensures sv.End() < |sv.base| && sv.base[sv.End()] == NUL
  {
    StringView(str, 0, Strlen(str))
  }

  /** `stringview_create_with_length`: no scanning, so the view may hold NUL bytes. */
  function CreateWithLength(str: seq<char>, len: nat): (sv: StringView)
    requires len <= |str|
    ensures sv.Valid() && sv.start == 0 && sv.base == str
    ensures sv.Bytes() == str[..len]
  {
    StringView(str, 0, len)
  }

  /**
   * `stringview_char_at` as written: the guard is `pos > length`, so at
   * `pos == length` it reads the byte just past the view, which must lie
   * inside the underlying block.
   */
  function CharAt(sv: StringView, pos: nat): (c: char)
    requires sv.Valid()
    requires pos <= sv.len ==> sv.start + pos < |sv.base|
    ensures pos < sv.len ==> c == sv.Bytes()[pos]
    ensures pos == sv.len ==> c == sv.base[sv.End()]
    ensures sv.len < pos ==> c == NUL
  {
    if pos > sv.len then NUL else sv.base[sv.start + pos]
  }

  /** `stringview_char_at` with the guard `pos >= length`: every position from `length` on gives NUL. */
  function CharAtChecked(sv: StringView, pos: nat): (c: char)
    requires sv.Valid()
    ensures pos < sv.len ==> c == sv.Bytes()[pos]
    ensures sv.len <= pos ==> c == NUL
  {
    if pos >= sv.len then NUL else sv.base[sv.start + pos]
  }

  /** The two guards differ only at `pos == length`. */
  lemma CharAtAgreesAwayFromEnd(sv: StringView, pos: nat)
    requires sv.Valid() && pos != sv.len
    ensures CharAt(sv, pos) == CharAtChecked(sv, pos)
  {
  }

  /** On a view made from a C string the byte past the view is the terminator, so there the two guards agree everywhere. */
  lemma CharAtOnCString(str: seq<char>, pos: nat)
    requires IsCString(str)
    ensures CharAt(Create(str), pos) == CharAtChecked(Create(str), pos)
  {
  }

  /** Finding: on a view that does not end at a NUL, `char_at(length)` returns the next byte of the block instead of the sentinel. */
  lemma CharAtReadsPastView()
    ensures var sv := StringView("hello, world", 0, 5);
            sv.Bytes() == "hello" && CharAt(sv, 5) == ',' && CharAtChecked(sv, 5) == NUL
  {
    var sv := StringView("hello, world", 0, 5);
    assert sv.Bytes() == "hello";
  }

  /**
   * `stringview_split`: `lhs` is the longest prefix of the view without `c`
   * and always starts at the view's start. When `c` occurs, `rhs` is what
   * follows its first occurrence; otherwise `rhs` is empty at the view's end.
   */
  method Split(sv: StringView, c: char) returns (lhs: StringView, rhs: StringView)
    requires sv.Valid()
    ensures lhs.Valid() && rhs.Valid()
    ensures lhs.base == sv.base && lhs.start == sv.start && lhs.len <= sv.len
    ensures rhs.base == sv.base && rhs.End() == sv.End()
    ensures c !in lhs.Bytes()
    ensures lhs.len < sv.len ==> sv.Bytes()[lhs.len] == c && rhs.start == lhs.End() + 1
    ensures lhs.len < sv.len ==> lhs.Bytes() + [c] + rhs.Bytes() == sv.Bytes()
    ensures lhs.len == sv.len ==> rhs.start == sv.End() && rhs.len == 0
  {
    var foundPosition := 0;
    while foundPosition < sv.len && CharAt(sv, foundPosition) != c
      invariant foundPosition <= sv.len
      invariant forall i :: sv.start <= i < sv.start + foundPosition ==> sv.base[i] != c
    {
      foundPosition := foundPosition + 1;
    }

    lhs := StringView(sv.base, sv.start, foundPosition);

    if foundPosition + 1 > sv.len {
      rhs := StringView(sv.base, sv.start + sv.len, 0);
    } else {
      rhs := StringView(sv.base, sv.start + foundPosition + 1, sv.len - foundPosition - 1);
    }
    SplitAtChar(sv, c, lhs, rhs);
  }

  /** The views `Split` builds once its scan has stopped are the two sides of the first `c`. */
  lemma SplitAtChar(sv: StringView, c: char, lhs: StringView, rhs: StringView)
    requires sv.Valid()
    requires lhs.base == sv.base && lhs.start == sv.start && lhs.len <= sv.len
    requires forall i :: sv.start <= i < lhs.End() ==> sv.base[i] != c
    requires lhs.len < sv.len ==> sv.base[lhs.End()] == c && rhs == StringView(sv.base, lhs.End() + 1, sv.len - lhs.len - 1)
    requires lhs.len == sv.len ==> rhs == StringView(sv.base, sv.End(), 0)
    ensures lhs.Valid() && rhs.Valid()
    ensures rhs.base == sv.base && rhs.End() == sv.End()
    ensures c !in lhs.Bytes()
    ensures lhs.len < sv.len ==> sv.Bytes()[lhs.len] == c && rhs.start == lhs.End() + 1
    ensures lhs.len < sv.len ==> lhs.Bytes() + [c] + rhs.Bytes() == sv.Bytes()
    ensures lhs.len == sv.len ==> rhs.start == sv.End() && rhs.len == 0
  {
    Absent(sv.base, sv.start, lhs.End(), c);
    if lhs.len < sv.len {
      JoinAroundByte(sv.base, sv.start, lhs.End(), sv.End());
    }
  }

  /** A slice none of whose bytes is `c` does not contain `c`. */
  lemma Absent(s: seq<char>, a: nat, b: nat, c: char)
    requires a <= b <= |s|
    requires forall i :: a <= i < b ==> s[i] != c
    ensures c !in s[a..b]
  {
    assert forall k :: 0 <= k < b - a ==> s[a..b][k] == s[a + k];
  }

  /** Cutting a slice around the byte at `m`. */
  lemma JoinAroundByte(s: seq<char>, a: nat, m: nat, b: nat)
    requires a <= m < b <= |s|
    ensures s[a..m] + [s[m]] + s[m + 1..b] == s[a..b]
  {
    JoinSlices(s, a, m, b);
    JoinSlices(s, m, m + 1, b);
    assert s[m..m + 1] == [s[m]];
  }

  /** `t` occurs in `s` at position `p`. */
  predicate MatchAt(s: seq<char>, t: seq<char>, p: nat) {
    p + |t| <= |s| && s[p..p + |t|] == t
  }

  /**
   * The first position below `bound` where `t` occurs in `s`, or `bound` when
   * there is none: where the scan of `stringview_split_str` stops.
   */
  function FirstMatch(s: seq<char>, t: seq<char>, bound: nat): (p: nat)
    ensures p <= bound
    ensures p < bound ==> MatchAt(s, t, p)
    ensures forall q: nat :: q < p ==> !MatchAt(s, t, q)
  {
    if bound == 0 then 0
    else
      var p := FirstMatch(s, t, bound - 1);
      if p < bound - 1 then p
      else if MatchAt(s, t, bound - 1) then bound - 1
      else bound
  }

  /**
   * `stringview_split_str` as written. The scan tries the positions below
   * `length - sep_len` only; that bound is unsigned, so the separator must
   * not be longer than the view.
   */
  method SplitStr(sv: StringView, separator: seq<char>) returns (lhs: StringView, rhs: StringView)
    requires sv.Valid() && IsCString(separator)
    requires Strlen(separator) <= sv.len
    ensures lhs.Valid() && rhs.Valid()
    ensures lhs.base == sv.base && lhs.start == sv.start && rhs.base == sv.base && rhs.End() == sv.End()
    ensures var sep := Chars(separator);
            var p := FirstMatch(sv.Bytes(), sep, sv.len - |sep|);
            if p < sv.len - |sep| then
              lhs.len == p && rhs.start == lhs.End() + |sep| && lhs.Bytes() + sep + rhs.Bytes() == sv.Bytes()
            else
              lhs == sv && rhs.start == sv.End() && rhs.len == 0
  {
    var sepLen := Strlen(separator);
    ghost var sep := Chars(separator);
    var foundPosition := 0;
    var didFind := false;

    while foundPosition < sv.len - sepLen
      invariant foundPosition <= sv.len - sepLen
      invariant forall q: nat :: q < foundPosition ==> !MatchAt(sv.Bytes(), sep, q)
      invariant !didFind
    {
      ScanStep(sv, separator, foundPosition);
      if StrNCmpIsZero(separator, sv.base[sv.start + foundPosition..], sepLen) {
        didFind := true;
        break;
      }
      foundPosition := foundPosition + 1;
    }
    FirstMatchUnique(sv.Bytes(), sep, sv.len - sepLen, foundPosition);

    if didFind {
      lhs := StringView(sv.base, sv.start, foundPosition);
      rhs := StringView(sv.base, sv.start + foundPosition + sepLen, sv.len - foundPosition - sepLen);
      SplitAround(sv, lhs, rhs, sep);
    } else {
      lhs := StringView(sv.base, sv.start, sv.len);
      rhs := StringView(sv.base, sv.start + sv.len, 0);
    }
  }

  /**
   * `stringview_split_str` with a guarded scan that tries every position where the separator fits: a
   * separator longer than the view is simply not found, and the last
   * position where the separator fits is tried too.
   */
  method SplitStrFixed(sv: StringView, separator: seq<char>) returns (lhs: StringView, rhs: StringView)
    requires sv.Valid() && IsCString(separator)
    ensures lhs.Valid() && rhs.Valid()
    ensures lhs.base == sv.base && lhs.start == sv.start && rhs.base == sv.base && rhs.End() == sv.End()
    ensures var sep := Chars(separator);
            (exists p: nat :: MatchAt(sv.Bytes(), sep, p)) ==>
              MatchAt(sv.Bytes(), sep, lhs.len)
              && (forall q: nat :: q < lhs.len ==> !MatchAt(sv.Bytes(), sep, q))
              && rhs.start == lhs.End() + |sep| && lhs.Bytes() + sep + rhs.Bytes() == sv.Bytes()
    ensures var sep := Chars(separator);
            (forall p: nat :: !MatchAt(sv.Bytes(), sep, p)) ==>
              lhs == sv && rhs.start == sv.End() && rhs.len == 0
  {
    var sepLen := Strlen(separator);
    ghost var sep := Chars(separator);
    var foundPosition := 0;
    var didFind := false;

    if sepLen <= sv.len {
      while foundPosition <= sv.len - sepLen
        invariant foundPosition <= sv.len - sepLen + 1
        invariant forall q: nat :: q < foundPosition ==> !MatchAt(sv.Bytes(), sep, q)
        invariant !didFind
      {
        ScanStep(sv, separator, foundPosition);
        if StrNCmpIsZero(separator, sv.base[sv.start + foundPosition..], sepLen) {
          didFind := true;
          break;
        }
        foundPosition := foundPosition + 1;
      }
    }
    assert !didFind ==> forall q: nat :: !MatchAt(sv.Bytes(), sep, q);

    if didFind {
      lhs := StringView(sv.base, sv.start, foundPosition);
      rhs := StringView(sv.base, sv.start + foundPosition + sepLen, sv.len - foundPosition - sepLen);
      SplitAround(sv, lhs, rhs, sep);
    } else {
      lhs := StringView(sv.base, sv.start, sv.len);
      rhs := StringView(sv.base, sv.start + sv.len, 0);
    }
  }

  /** One step of the scan: `strncmp` at a position inside the view tests for a match there. */
  lemma ScanStep(sv: StringView, separator: seq<char>, p: nat)
    requires sv.Valid() && IsCString(separator)
    requires p + Strlen(separator) <= sv.len
    ensures Readable(separator, Strlen(separator)) && Readable(sv.base[sv.start + p..], Strlen(separator))
    ensures StrNCmpIsZero(separator, sv.base[sv.start + p..], Strlen(separator)) <==> MatchAt(sv.Bytes(), Chars(separator), p)
  {
    var n := Strlen(separator);
    var mem := sv.base[sv.start + p..];
    StrNCmpOnPlainChars(separator, mem, n);
    assert mem[..n] == sv.Bytes()[p..p + n] by {
      forall i | 0 <= i < n
        ensures mem[..n][i] == sv.Bytes()[p..p + n][i]
      {
        assert mem[..n][i] == sv.base[sv.start + p + i];
      }
    }
  }

  /** The characterisation in `FirstMatch`'s contract pins the position down. */
  lemma FirstMatchUnique(s: seq<char>, t: seq<char>, bound: nat, p: nat)
    requires p <= bound && (p < bound ==> MatchAt(s, t, p))
    requires forall q: nat :: q < p ==> !MatchAt(s, t, q)
    ensures p == FirstMatch(s, t, bound)
  {
  }

  /** Cutting a view around a match of `sep` gives back the view. */
  lemma SplitAround(sv: StringView, lhs: StringView, rhs: StringView, sep: seq<char>)
    requires sv.Valid() && lhs.base == sv.base && rhs.base == sv.base && lhs.start == sv.start
    requires MatchAt(sv.Bytes(), sep, lhs.len)
    requires rhs.start == lhs.End() + |sep| && rhs.End() == sv.End()
    ensures lhs.Valid() && rhs.Valid()
    ensures lhs.Bytes() + sep + rhs.Bytes() == sv.Bytes()
  {
    SliceOfSlice(sv.base, sv.start, sv.End(), lhs.len, lhs.len + |sep|);
    JoinSlices(sv.base, sv.start, lhs.End(), sv.End());
    JoinSlices(sv.base, lhs.End(), rhs.start, sv.End());
  }

  /** Finding: a separator that ends exactly at the view's end is never found. */
  lemma SplitStrMissesFinalPosition()
    ensures MatchAt("ab", "b", 1)
    ensures FirstMatch("ab", "b", |"ab"| - |"b"|) == |"ab"| - |"b"|
  {
    assert "ab"[1..2] == "b";
    assert !MatchAt("ab", "b", 0) by { assert "ab"[0..1][0] == 'a'; }
  }

  /**
   * Finding: with a separator longer than the view, `length - sep_len` wraps,
   * so the scan tries position 0 although the separator reaches past the
   * view's end there.
   */
  lemma ScanBoundWraps()
    ensures var sv := StringView("a" + [NUL], 0, 1);
            var bound := USizeSub(sv.len, |"ab"|);
            bound == USizeModulus - 1 && 0 < bound && sv.End() < 0 + |"ab"|
  {
  }

  /**
   * `stringview_triml` as written: the clamp assigns `count` in both arms, so
   * the source is correct only when `count <= length`.
   */
  function TrimLeft(sv: StringView, count: nat): (r: StringView)
    requires sv.Valid() && count <= sv.len
    ensures r.Valid() && r.base == sv.base
    ensures r.start == sv.start + count && r.End() == sv.End()
    ensures r.Bytes() == sv.Bytes()[count..]
  {
    StringView(sv.base, sv.start + count, sv.len - count)
  }

  /** `stringview_trimr` as written: keeps the start, drops `count` bytes at the end; correct only when `count <= length`. */
  function TrimRight(sv: StringView, count: nat): (r: StringView)
    requires sv.Valid() && count <= sv.len
    ensures r.Valid() && r.base == sv.base && r.start == sv.start
    ensures r.Bytes() == sv.Bytes()[..sv.len - count]
  {
    SliceOfSlice(sv.base, sv.start, sv.End(), 0, sv.len - count);
    StringView(sv.base, sv.start, sv.len - count)
  }

  /**
   * Finding: both trims compute the new length as `length - count` on
   * `size_t`, so trimming past the end leaves a view longer than it was
   * rather than an empty one.
   */
  lemma TrimPastEndWraps()
    ensures USizeSub(3, 5) == USizeModulus - 2
    ensures 3 < USizeSub(3, 5)
  {
  }

  /** `stringview_triml` with the clamp it was meant to have: `min(count, length)` bytes go. */
  function TrimLeftClamped(sv: StringView, count: nat): (r: StringView)
    requires sv.Valid()
    ensures r.Valid() && r.base == sv.base && r.End() == sv.End()
    ensures count <= sv.len ==> r == TrimLeft(sv, count)
    ensures sv.len <= count ==> r.len == 0
  {
    var removed := if sv.len < count then sv.len else count;
    StringView(sv.base, sv.start + removed, sv.len - removed)
  }

  /** `stringview_trimr` with the clamp it was meant to have. */
  function TrimRightClamped(sv: StringView, count: nat): (r: StringView)
    requires sv.Valid()
    ensures r.Valid() && r.base == sv.base && r.start == sv.start
    ensures count <= sv.len ==> r == TrimRight(sv, count)
    ensures sv.len <= count ==> r.len == 0
  {
    var removed := if sv.len < count then sv.len else count;
    StringView(sv.base, sv.start, sv.len - removed)
  }

  /** Trimming from both sides takes out exactly the middle of the view. */
  lemma TrimBothSides(sv: StringView, left: nat, right: nat)
    requires sv.Valid() && left + right <= sv.len
    ensures TrimRight(TrimLeft(sv, left), right).Bytes() == sv.Bytes()[left..sv.len - right]
    ensures TrimLeft(TrimRight(sv, right), left) == TrimRight(TrimLeft(sv, left), right)
  {
  }
}
