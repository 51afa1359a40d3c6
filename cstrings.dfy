/**
 * The pieces of the C library and of C arithmetic that the string toolkit
 * leans on: `strlen`, `strncmp` and subtraction on `size_t`.
 *
 * A C string is modelled as the memory block its pointer points into, as a
 * `seq<char>`; it is a well-formed C string when the block holds a NUL
 * character, and its length is the index of the first NUL.
 */
module CStrings {

  const NUL: char := '\0'

  /** 2^64: `size_t` is taken to be a 64-bit unsigned type. */
  const USizeModulus: int := 0x1_0000_0000_0000_0000

  /** The memory at `mem` holds a terminated C string. */
  predicate IsCString(mem: seq<char>) {
    NUL in mem
  }

  /** `strlen` (section 7.24.6.3 of the C11 standard): the index of the first NUL. */
  function Strlen(mem: seq<char>): (n: nat)
    requires IsCString(mem)
    ensures n < |mem| && mem[n] == NUL
    ensures NUL !in mem[..n]
  {
    if mem[0] == NUL then 0
    else
      assert NUL in mem[1..];
      var k := Strlen(mem[1..]);
      assert mem[..k + 1] == [mem[0]] + mem[1..][..k];
      k + 1
  }

  /** The characters of a C string, without its terminator. */
  function Chars(mem: seq<char>): (s: seq<char>)
    requires IsCString(mem)
    ensures NUL !in s && s + [NUL] <= mem
  {
    mem[..Strlen(mem)]
  }

  /** A sequence without NUL, followed by a terminator, is a C string of its own length. */
  lemma StrlenOfTerminated(s: seq<char>)
    requires NUL !in s
    ensures Strlen(s + [NUL]) == |s| && Chars(s + [NUL]) == s
  {
    assert (s + [NUL])[..|s|] == s;
  }

  /**
   * `strncmp` may read the first `n` characters at `mem`, or fewer when a NUL
   * comes earlier: it never reads past a NUL.
   */
  predicate Readable(mem: seq<char>, n: nat) {
    n <= |mem| || NUL in mem
  }

  /** `strncmp(a, b, n) == 0` (section 7.24.4.4 of the C11 standard). */
  function StrNCmpIsZero(a: seq<char>, b: seq<char>, n: nat): bool
    requires Readable(a, n) && Readable(b, n)
    decreases n
  {
    if n == 0 then true
    else if a[0] != b[0] then false
    else if a[0] == NUL then true
    else StrNCmpIsZero(a[1..], b[1..], n - 1)
  }

  /** The at most `n` characters of the C string at `mem` that `strncmp` looks at. */
  function Bounded(mem: seq<char>, n: nat): seq<char>
    decreases n
  {
    if n == 0 || |mem| == 0 || mem[0] == NUL then [] else [mem[0]] + Bounded(mem[1..], n - 1)
  }

  /** `strncmp` reports equality exactly when the two strings agree up to their terminators, looking at `n` characters at most. */
  lemma {:induction false} StrNCmpMeaning(a: seq<char>, b: seq<char>, n: nat)
    requires Readable(a, n) && Readable(b, n)
    ensures StrNCmpIsZero(a, b, n) <==> Bounded(a, n) == Bounded(b, n)
    decreases n
  {
    if n > 0 && a[0] == b[0] && a[0] != NUL {
      StrNCmpMeaning(a[1..], b[1..], n - 1);
      assert Bounded(a, n) == [a[0]] + Bounded(a[1..], n - 1);
      assert Bounded(b, n) == [b[0]] + Bounded(b[1..], n - 1);
      if Bounded(a, n) == Bounded(b, n) {
        assert Bounded(a[1..], n - 1) == Bounded(a, n)[1..];
      }
    } else if n > 0 && a[0] != b[0] {
      if a[0] != NUL && b[0] != NUL {
        assert Bounded(a, n)[0] != Bounded(b, n)[0];
      }
    }
  }

  /** When `a` holds no NUL among its first `n` characters, `strncmp` is equality of `n` characters. */
  lemma {:induction false} StrNCmpOnPlainChars(a: seq<char>, b: seq<char>, n: nat)
    requires n <= |a| && NUL !in a[..n] && Readable(b, n)
    ensures StrNCmpIsZero(a, b, n) <==> n <= |b| && a[..n] == b[..n]
    decreases n
  {
    if n > 0 {
      assert a[0] == a[..n][0];
      assert NUL !in a[1..][..n - 1] by {
        assert a[1..][..n - 1] == a[..n][1..];
      }
      if a[0] == b[0] {
        StrNCmpOnPlainChars(a[1..], b[1..], n - 1);
        if n <= |b| {
          assert a[..n] == [a[0]] + a[1..][..n - 1];
          assert b[..n] == [b[0]] + b[1..][..n - 1];
        }
      } else if n <= |b| {
        assert a[..n][0] != b[..n][0];
      }
    }
  }

  /** Unsigned subtraction on `size_t`: it wraps modulo 2^64 instead of going negative. */
  function USizeSub(a: nat, b: nat): (r: nat)
    requires a < USizeModulus && b < USizeModulus
    ensures r < USizeModulus
    ensures b <= a ==> r == a - b
    ensures a < b ==> r == USizeModulus - (b - a)
  {
    (a - b) % USizeModulus
  }
}
