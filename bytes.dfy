/**
  The byte-level vocabulary of the tr engine: Go's `byte`, ASCII literals,
  occurrence counting, the error-carrying result of the range resolver, and
  the slice comparison `ByteSliceEqual` (pkg/r/r.go).
 */
module Bytes {

  /** An 8-bit value, as Go's `byte`. */
  type Byte = b: int | 0 <= b < 256

  /** The range separator `-`. */
  const Hyphen: Byte := 45
  /** The class delimiter `:`. */
  const Colon: Byte := 58

  /** Either a value or an error, standing for Go's `(value, error)` pairs. */
  datatype Result<+T, +E> = Ok(value: T) | Err(error: E)

  /**
    The bytes of a string literal, as Go's `[]byte("...")` for the ASCII
    literals this model uses; a character from 256 on, which those literals
    never contain, becomes 0.
   */
  function Ascii(s: string): (r: seq<Byte>)
    ensures |r| == |s|
    ensures forall i :: 0 <= i < |s| && s[i] as int < 256 ==> r[i] == s[i] as int
  {
    seq(|s|, i requires 0 <= i < |s| => if s[i] as int < 256 then s[i] as int else 0)
  }

  /** How many bytes of `s` equal `x`. */
  function Count(s: seq<Byte>, x: Byte): nat
  {
    if s == [] then 0 else Count(s[..|s| - 1], x) + (if s[|s| - 1] == x then 1 else 0)
  }

  /** A byte that does not occur is counted zero times. */
  lemma {:induction false} CountAbsent(s: seq<Byte>, x: Byte)
    requires x !in s
    ensures Count(s, x) == 0
  {
    if s != [] {
      CountAbsent(s[..|s| - 1], x);
    }
  }

  /** Counting distributes over concatenation. */
  lemma {:induction false} CountAppend(s: seq<Byte>, t: seq<Byte>, x: Byte)
    ensures Count(s + t, x) == Count(s, x) + Count(t, x)
    decreases |t|
  {
    if t != [] {
      var t' := t[..|t| - 1];
      assert (s + t)[..|s + t| - 1] == s + t' && (s + t)[|s + t| - 1] == t[|t| - 1];
      CountAppend(s, t', x);
    } else {
      assert s + t == s;
    }
  }

  /** Splitting `done + rest` at the first byte of `rest`. */
  lemma SplitAt(done: seq<Byte>, rest: seq<Byte>)
    requires rest != []
    ensures (done + rest)[|done|] == rest[0]
    ensures (done + rest)[..|done|] == done
    ensures (done + rest)[|done| + 1..] == rest[1..]
    ensures done + rest == (done + [rest[0]]) + rest[1..]
  {
    assert rest == [rest[0]] + rest[1..];
  }

  /**
    ByteSliceEqual (pkg/r/r.go:297-307): lengths first, then byte by byte;
    the verdict is exactly sequence equality.
   */
  method ByteSliceEqual(a: seq<Byte>, b: seq<Byte>) returns (eq: bool)
    ensures eq <==> a == b
  {
    if |a| != |b| {
      return false;
    }
    var i := 0;
    while i < |a|
      invariant 0 <= i <= |a|
      invariant a[..i] == b[..i]
    {
      if a[i] != b[i] {
        return false;
      }
      i := i + 1;
    }
    assert a == a[..i] && b == b[..i];
    return true;
  }
}
