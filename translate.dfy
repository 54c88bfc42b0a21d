/**
  The three translate modes of pkg/r/r.go as functions on byte sequences,
  with their laws: `Replace` (one byte becomes the whole replacement),
  `ReplaceSlice` (leftmost, non-overlapping substring replacement) and the
  per-byte body of `RangeMutate` (positional mapping over two resolved
  ranges of equal length).
 */
module Translate {
  import opened Bytes
  import opened Ranges

  // ---------------------------------------------------------------------
  // Replace (pkg/r/r.go:105-115)
  // ---------------------------------------------------------------------

  /**
    What Replace leaves in RawBytes: every byte equal to `c` is replaced by
    the whole of `to`; the cursor then jumps past the inserted bytes, so each
    input byte is looked at once and inserted bytes are never rescanned.
   */
  function ReplaceByte(s: seq<Byte>, c: Byte, to: seq<Byte>): seq<Byte>
  {
    if s == [] then []
    else ReplaceByte(s[..|s| - 1], c, to) + (if s[|s| - 1] == c then to else [s[|s| - 1]])
  }

  /** Extending the scanned prefix by one byte appends that byte's image. */
  lemma ReplaceByteAdvance(s: seq<Byte>, c: Byte, to: seq<Byte>, k: nat)
    requires k < |s|
    ensures ReplaceByte(s[..k + 1], c, to) == ReplaceByte(s[..k], c, to) + (if s[k] == c then to else [s[k]])
  {
    assert s[..k + 1][..k] == s[..k];
  }

  /**
    One step of Replace's in-place scan: with `done` the image of the first
    `k` input bytes and `raw` that image followed by the unscanned input, the
    byte at the cursor |done| is s[k], and splicing `to` over it when it is
    `c` (or stepping over it otherwise) gives the same shape for k + 1.
   */
  lemma ReplaceByteStep(s: seq<Byte>, c: Byte, to: seq<Byte>, k: nat, done: seq<Byte>, raw: seq<Byte>)
    returns (raw': seq<Byte>, done': seq<Byte>)
    requires k < |s| && done == ReplaceByte(s[..k], c, to) && raw == done + s[k..]
    ensures |done| < |raw| && raw[|done|] == s[k]
    ensures raw' == if s[k] == c then raw[..|done|] + to + raw[|done| + 1..] else raw
    ensures done' == done + (if s[k] == c then to else [s[k]])
    ensures done' == ReplaceByte(s[..k + 1], c, to) && raw' == done' + s[k + 1..]
  {
    ReplaceByteAdvance(s, c, to, k);
    SplitAt(done, s[k..]);
    assert s[k..][0] == s[k] && s[k..][1..] == s[k + 1..];
    if s[k] == c {
      raw', done' := raw[..|done|] + to + raw[|done| + 1..], done + to;
    } else {
      raw', done' := raw, done + [s[k]];
    }
  }

  /** Replacing in a concatenation replaces in each part: the output for a byte depends on that byte alone. */
  lemma {:induction false} ReplaceBytePiecewise(s: seq<Byte>, t: seq<Byte>, c: Byte, to: seq<Byte>)
    ensures ReplaceByte(s + t, c, to) == ReplaceByte(s, c, to) + ReplaceByte(t, c, to)
    decreases |t|
  {
    if t == [] {
      assert s + t == s;
    } else {
      var t' := t[..|t| - 1];
      assert (s + t)[..|s + t| - 1] == s + t';
      ReplaceBytePiecewise(s, t', c, to);
    }
  }

  /** Distributing a product over a successor. */
  lemma MulSucc(m: int, g: int)
    ensures (m + 1) * g == m * g + g
  {
  }

  /** The length law: each occurrence of `c` grows the output by |to| - 1. */
  lemma {:induction false} ReplaceByteLength(s: seq<Byte>, c: Byte, to: seq<Byte>)
    ensures |ReplaceByte(s, c, to)| == |s| + Count(s, c) * (|to| - 1)
  {
    if s != [] {
      var s', b := s[..|s| - 1], s[|s| - 1];
      ReplaceByteLength(s', c, to);
      if b == c {
        assert Count(s, c) == Count(s', c) + 1;
        MulSucc(Count(s', c), |to| - 1);
      } else {
        assert Count(s, c) == Count(s', c);
      }
    }
  }

  /** An input in which `c` does not occur comes back unchanged. */
  lemma {:induction false} ReplaceByteAbsent(s: seq<Byte>, c: Byte, to: seq<Byte>)
    requires c !in s
    ensures ReplaceByte(s, c, to) == s
  {
    if s != [] {
      var s' := s[..|s| - 1];
      assert s == s' + [s[|s| - 1]];
      ReplaceByteAbsent(s', c, to);
    }
  }

  /**
    With a one-byte replacement the output has the input's length, and each
    position holds the replacement where the input held `c` and the input
    byte elsewhere. Replacing `c` by itself is the identity.
   */
  lemma {:induction false} ReplaceByteSingle(s: seq<Byte>, c: Byte, d: Byte)
    ensures |ReplaceByte(s, c, [d])| == |s|
    ensures forall k :: 0 <= k < |s| ==> ReplaceByte(s, c, [d])[k] == if s[k] == c then d else s[k]
    ensures ReplaceByte(s, c, [c]) == s
  {
    if s != [] {
      var s' := s[..|s| - 1];
      ReplaceByteSingle(s', c, d);
      assert s == s' + [s[|s| - 1]];
    }
  }

  // ---------------------------------------------------------------------
  // ReplaceSlice (pkg/r/r.go:119-136)
  // ---------------------------------------------------------------------

  /** `p` occurs in `s` starting at position `j`. */
  predicate OccursAt(s: seq<Byte>, p: seq<Byte>, j: int)
  {
    0 <= j && j + |p| <= |s| && s[j..j + |p|] == p
  }

  /** `p` occurs somewhere in `s` as a contiguous substring. */
  ghost predicate Occurs(s: seq<Byte>, p: seq<Byte>)
  {
    exists j :: OccursAt(s, p, j)
  }

  /**
    What ReplaceSlice builds: scanning from the left, a position where
    `from` starts contributes `to` and the scan resumes just past the match;
    any other position contributes its own byte.
   */
  function Subst(s: seq<Byte>, from: seq<Byte>, to: seq<Byte>): seq<Byte>
    requires |from| >= 1
    decreases |s|
  {
    if s == [] then []
    else if from <= s then to + Subst(s[|from|..], from, to)
    else [s[0]] + Subst(s[1..], from, to)
  }

  /** Away from a match at the front, an occurrence in `s` is one in its tail. */
  lemma OccursTail(s: seq<Byte>, p: seq<Byte>)
    requires s != [] && !(p <= s)
    ensures Occurs(s, p) <==> Occurs(s[1..], p)
  {
    if Occurs(s, p) {
      var j :| OccursAt(s, p, j);
      assert j != 0;
      assert s[1..][j - 1..j - 1 + |p|] == s[j..j + |p|];
      assert OccursAt(s[1..], p, j - 1);
    }
    if Occurs(s[1..], p) {
      var j :| OccursAt(s[1..], p, j);
      assert s[j + 1..j + 1 + |p|] == s[1..][j..j + |p|];
      assert OccursAt(s, p, j + 1);
    }
  }

  /** `from` starts at position `i` of `s` exactly when the slice there equals it. */
  lemma PrefixAt(s: seq<Byte>, from: seq<Byte>, i: nat)
    requires i <= |s|
    ensures from <= s[i..] <==> i + |from| <= |s| && s[i..i + |from|] == from
  {
    if i + |from| <= |s| {
      assert s[i..][..|from|] == s[i..i + |from|];
    }
  }

  /**
    One step of the ReplaceSlice scan at cursor `i`, where `matched` says
    whether `from` starts there: if `buffer` followed by
    the substitution of the rest is the whole substitution before the step,
    it still is after appending `to` and skipping the match, or after
    appending the byte at the cursor and moving on by one.
   */
  lemma SubstAdvance(s: seq<Byte>, from: seq<Byte>, to: seq<Byte>, i: nat, buffer: seq<Byte>, matched: bool)
    returns (buffer': seq<Byte>, next: nat)
    requires |from| >= 1 && i < |s|
    requires matched <==> i + |from| <= |s| && s[i..i + |from|] == from
    requires buffer + Subst(s[i..], from, to) == Subst(s, from, to)
    ensures buffer' == if matched then buffer + to else buffer + [s[i]]
    ensures next == if matched then i + |from| else i + 1
    ensures next <= |s| && buffer' + Subst(s[next..], from, to) == Subst(s, from, to)
  {
    PrefixAt(s, from, i);
    if matched {
      assert s[i..][|from|..] == s[i + |from|..];
      var tail := Subst(s[i + |from|..], from, to);
      assert Subst(s[i..], from, to) == to + tail;
      assert (buffer + to) + tail == buffer + (to + tail);
      buffer', next := buffer + to, i + |from|;
    } else {
      assert s[i..][1..] == s[i + 1..];
      var tail := Subst(s[i + 1..], from, to);
      assert Subst(s[i..], from, to) == [s[i]] + tail;
      assert (buffer + [s[i]]) + tail == buffer + ([s[i]] + tail);
      buffer', next := buffer + [s[i]], i + 1;
    }
  }

  /** The number of matches the ReplaceSlice scan replaces. */
  function Matches(s: seq<Byte>, from: seq<Byte>): nat
    requires |from| >= 1
    decreases |s|
  {
    if s == [] then 0
    else if from <= s then 1 + Matches(s[|from|..], from)
    else Matches(s[1..], from)
  }

  /** The length law: each replaced match changes the length by |to| - |from|. */
  lemma {:induction false} SubstLength(s: seq<Byte>, from: seq<Byte>, to: seq<Byte>)
    requires |from| >= 1
    ensures |Subst(s, from, to)| == |s| + Matches(s, from) * (|to| - |from|)
    decreases |s|
  {
    if s == [] {
    } else if from <= s {
      var rest := s[|from|..];
      var m, g := Matches(rest, from), |to| - |from|;
      SubstLength(rest, from, to);
      var r := Subst(rest, from, to);
      assert Subst(s, from, to) == to + r;
      assert Matches(s, from) == m + 1;
      MulSucc(m, g);
    } else {
      SubstLength(s[1..], from, to);
    }
  }

  /** The scan replaces something exactly when `from` occurs in the input. */
  lemma {:induction false} MatchesIffOccurs(s: seq<Byte>, from: seq<Byte>)
    requires |from| >= 1
    ensures Matches(s, from) == 0 <==> !Occurs(s, from)
    decreases |s|
  {
    if s == [] {
    } else if from <= s {
      assert OccursAt(s, from, 0);
    } else {
      MatchesIffOccurs(s[1..], from);
      OccursTail(s, from);
    }
  }

  /** An input in which `from` does not occur comes back unchanged. */
  lemma {:induction false} SubstAbsent(s: seq<Byte>, from: seq<Byte>, to: seq<Byte>)
    requires |from| >= 1 && !Occurs(s, from)
    ensures Subst(s, from, to) == s
    decreases |s|
  {
    if s != [] {
      assert OccursAt(s, from, 0) <==> from <= s;
      OccursTail(s, from);
      SubstAbsent(s[1..], from, to);
    }
  }

  /** Replacing `from` by itself is the identity. */
  lemma {:induction false} SubstIdentity(s: seq<Byte>, from: seq<Byte>)
    requires |from| >= 1
    ensures Subst(s, from, from) == s
    decreases |s|
  {
    if s == [] {
    } else if from <= s {
      SubstIdentity(s[|from|..], from);
      assert s == s[..|from|] + s[|from|..];
    } else {
      SubstIdentity(s[1..], from);
      assert s == [s[0]] + s[1..];
    }
  }

  // ---------------------------------------------------------------------
  // RangeMutate (pkg/r/r.go:211-261)
  // ---------------------------------------------------------------------

  /**
    The guards RangeMutate passes before it touches any byte: neither range
    has a single position and both have the same length.
   */
  predicate Mappable(from: seq<Byte>, to: seq<Byte>)
  {
    |from| != 1 && |to| != 1 && |from| == |to|
  }

  /**
    The value a byte ends with when RangeMutate's inner loop runs j upward
    from k: whenever the byte's CURRENT value equals from[j] it becomes
    to[j], and the loop goes on comparing that new value with the later
    positions.
   */
  function Chain(v: Byte, from: seq<Byte>, to: seq<Byte>, k: nat): Byte
    requires |from| == |to| && k <= |from|
    decreases |from| - k
  {
    if k == |from| then v
    else Chain(if v == from[k] then to[k] else v, from, to, k + 1)
  }

  /** RangeMutate's effect on the whole input: each byte goes through `Chain`. */
  function Transliterate(s: seq<Byte>, from: seq<Byte>, to: seq<Byte>): seq<Byte>
    requires |from| == |to|
  {
    seq(|s|, i requires 0 <= i < |s| => Chain(s[i], from, to, 0))
  }

  /** Positions of `from` that do not hold `v` leave `v` alone. */
  lemma {:induction false} ChainSkip(v: Byte, from: seq<Byte>, to: seq<Byte>, k: nat, m: nat)
    requires |from| == |to| && k <= m <= |from|
    requires forall j :: k <= j < m ==> from[j] != v
    ensures Chain(v, from, to, k) == Chain(v, from, to, m)
    decreases m - k
  {
    if k < m {
      ChainSkip(v, from, to, k + 1, m);
    }
  }

  /** A byte that is not in `from` is left unchanged. */
  lemma ChainOutside(v: Byte, from: seq<Byte>, to: seq<Byte>)
    requires |from| == |to| && v !in from
    ensures Chain(v, from, to, 0) == v
  {
    ChainSkip(v, from, to, 0, |from|);
  }

  /** Mapping a range onto itself changes nothing. */
  lemma {:induction false} ChainIdentity(v: Byte, from: seq<Byte>, k: nat)
    requires k <= |from|
    ensures Chain(v, from, from, k) == v
    decreases |from| - k
  {
    if k < |from| {
      ChainIdentity(v, from, k + 1);
    }
  }

  /**
    The mapping is positional (from[j] becomes to[j]) when `from` has no
    repeated byte and no to[i] equals a later from[j]; otherwise a byte
    can be carried further along by the continuing inner loop.
   */
  lemma ChainPositional(from: seq<Byte>, to: seq<Byte>, j: nat)
    requires |from| == |to| && j < |from|
    requires forall a, b :: 0 <= a < b < |from| ==> from[a] != from[b]
    requires forall a, b :: 0 <= a < b < |from| ==> to[a] != from[b]
    ensures Chain(from[j], from, to, 0) == to[j]
  {
    ChainSkip(from[j], from, to, 0, j);
    ChainSkip(to[j], from, to, j + 1, |from|);
  }

  /**
    RangeMutate's laws: length is kept, bytes outside `from` are kept, and
    mapping a range onto itself is the identity.
   */
  lemma TransliterateLaws(s: seq<Byte>, from: seq<Byte>, to: seq<Byte>)
    requires |from| == |to|
    ensures |Transliterate(s, from, to)| == |s|
    ensures forall k :: 0 <= k < |s| && s[k] !in from ==> Transliterate(s, from, to)[k] == s[k]
    ensures Transliterate(s, from, from) == s
  {
    forall k | 0 <= k < |s| && s[k] !in from
      ensures Transliterate(s, from, to)[k] == s[k]
    {
      ChainOutside(s[k], from, to);
    }
    forall k | 0 <= k < |s|
      ensures Transliterate(s, from, from)[k] == s[k]
    {
      ChainIdentity(s[k], from, 0);
    }
  }

  /**
    Over two ASCII ranges lo..hi and lo2..hi2 of equal length whose
    replacement starts at or below the search range or lies wholly above
    it, RangeMutate is the positional mapping: lo + j becomes lo2 + j, and every byte outside
    lo..hi is kept.
   */
  lemma AsciiRangeMapping(lo: Byte, hi: Byte, lo2: Byte, hi2: Byte, v: Byte)
    requires lo <= hi < 0x80 && lo2 <= hi2 < 0x80 && hi - lo == hi2 - lo2
    requires lo2 <= lo || hi < lo2
    ensures |Span(lo, hi)| == |Span(lo2, hi2)|
    ensures Chain(v, Span(lo, hi), Span(lo2, hi2), 0) == if lo <= v <= hi then v - lo + lo2 else v
  {
    SpanAscending(lo, hi);
    SpanAscending(lo2, hi2);
    var from, to := Span(lo, hi), Span(lo2, hi2);
    if lo <= v <= hi {
      assert from[v - lo] == v;
      ChainPositional(from, to, v - lo);
    } else {
      assert v !in from;
      ChainOutside(v, from, to);
    }
  }
}
