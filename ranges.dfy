/**
  The range/class resolver of pkg/r/r.go: the shape tests the dispatcher
  applies to a search or replace operand, the fixed POSIX bracket table,
  `valRegexRange`, the class step of `ResolveRegexArg`, and `resolveRange`,
  which expands a token `X-Y` into the bytes of the code points X..Y.
 */
module Ranges {
  import opened Bytes

  /** The bytes of `[:upper:]`. */
  const UpperName: seq<Byte> := [91, 58, 117, 112, 112, 101, 114, 58, 93]

  /** The bytes of `[:lower:]`. */
  const LowerName: seq<Byte> := [91, 58, 108, 111, 119, 101, 114, 58, 93]

  /** PosixBracRegexMap (pkg/r/r.go:22-25), read-only: `[:upper:]` to `A-Z`, `[:lower:]` to `a-z`. */
  const PosixClasses: map<seq<Byte>, seq<Byte>> :=
    map[UpperName := [65, 45, 90], LowerName := [97, 45, 122]]

  /** `bytes.Contains(b, "-") && len(b) == 3`: the range shape. */
  predicate RangeShaped(b: seq<Byte>)
  {
    Hyphen in b && |b| == 3
  }

  /**
    `bytes.Contains(b, ":") && len(bytes.Split(b, ":")) == 3`: the class
    shape. Splitting on one byte yields one piece more than there are
    separators, so this holds exactly when `b` has two colons.
   */
  predicate ClassShaped(b: seq<Byte>)
  {
    Count(b, Colon) == 2
  }

  /** A class shape has colons in it, so the `Contains(b, ":")` test the dispatcher adds changes nothing. */
  lemma ShapeNeedsColon(b: seq<Byte>)
    ensures ClassShaped(b) ==> Colon in b
  {
    if Colon !in b {
      CountAbsent(b, Colon);
    }
  }

  /**
    valRegexRange (pkg/r/r.go:285-293): a hyphen somewhere, three bytes, and
    a last byte strictly above the first. The hyphen need not be the middle
    byte.
   */
  predicate IsValidRange(b: seq<Byte>)
  {
    Hyphen in b && |b| == 3 && b[2] > b[0]
  }

  /**
    The class step of ResolveRegexArg for one operand (pkg/r/r.go:318-335):
    a class-shaped operand is replaced by its table entry, or by the empty
    sequence (the map's zero value) when the class is unknown.
   */
  function ClassLookup(b: seq<Byte>): seq<Byte>
  {
    if !ClassShaped(b) then b
    else if b in PosixClasses then PosixClasses[b]
    else []
  }

  /** The condition under which ResolveRegexArg returns 0 (pkg/r/r.go:336). */
  predicate RegexArgsOk(from: seq<Byte>, to: seq<Byte>)
  {
    && (ClassShaped(from) ==> from in PosixClasses)
    && (ClassShaped(to) ==> to in PosixClasses)
    && IsValidRange(ClassLookup(from))
    && IsValidRange(ClassLookup(to))
  }

  /**
    `[]byte(string(rune(v)))`: the UTF-8 encoding of a code point below 256,
    one byte below 0x80 and two bytes from 0x80 on.
   */
  function Utf8(v: Byte): seq<Byte>
  {
    if v < 0x80 then [v] else [0xC0 + v / 64, 0x80 + v % 64]
  }

  /**
    What resolveRange appends for the first byte `lo` and the last byte `hi`:
    the encodings of lo, lo+1, ..., hi, or of lo alone when hi <= lo.
   */
  function Span(lo: Byte, hi: Byte): (r: seq<Byte>)
    ensures |r| >= 1 && r[0] == Utf8(lo)[0]
    decreases hi - lo
  {
    if hi <= lo then Utf8(lo) else Span(lo, hi - 1) + Utf8(hi)
  }

  /** The error resolveRange reports for a token not in `X-Y` form. */
  datatype RangeError = NotInRightFormat

  /**
    The indexing resolveRange survives without a Go panic: its guard reads
    b[1] whenever |b| != 3, and the expansion reads b[0] and b[2].
   */
  predicate Indexable(b: seq<Byte>)
  {
    |b| >= 3 || (|b| == 2 && b[1] != Hyphen)
  }

  /**
    resolveRange (pkg/r/r.go:265-280). The guard joins its two tests with
    `&&`, so a token is rejected only when it is not three bytes long AND
    its second byte is not a hyphen; everything else expands from b[0]
    to b[2], whatever its middle byte.
   */
  function Resolved(b: seq<Byte>): Result<seq<Byte>, RangeError>
    requires Indexable(b)
  {
    if |b| != 3 && b[1] != Hyphen then Err(NotInRightFormat)
    else Ok(Span(b[0], b[2]))
  }

  /** resolveRange's loop, proved to compute `Resolved`. */
  method ResolveRange(b: seq<Byte>) returns (r: Result<seq<Byte>, RangeError>)
    requires Indexable(b)
    ensures r == Resolved(b)
    ensures |b| == 3 ==> r.Ok?
  {
    if |b| != 3 && b[1] != Hyphen {
      return Err(NotInRightFormat);
    }
    var asciiDiff := b[2] as int - b[0] as int;
    var rangee := Utf8(b[0]);
    var cur := b[0] as int + 1;
    var i := 0;
    while i < asciiDiff
      invariant 0 <= i <= if asciiDiff > 0 then asciiDiff else 0
      invariant cur == b[0] + i + 1
      invariant b[0] as int + i < 256 && rangee == Span(b[0], b[0] as int + i)
    {
      rangee := rangee + Utf8(cur);
      cur := cur + 1;
      i := i + 1;
    }
    if asciiDiff <= 0 {
      assert i == 0 && Span(b[0], b[2]) == Utf8(b[0]) == Span(b[0], b[0]);
    } else {
      assert b[0] as int + i == b[2];
    }
    return Ok(rangee);
  }

  /** Every code point contributes at least one byte. */
  lemma {:induction false} SpanCovers(lo: Byte, hi: Byte)
    requires lo <= hi
    ensures |Span(lo, hi)| >= hi - lo + 1
    decreases hi - lo
  {
    if hi > lo {
      SpanCovers(lo, hi - 1);
    }
  }

  /** Over ASCII, the span is the ascending bytes lo..hi, one per code point. */
  lemma {:induction false} SpanAscending(lo: Byte, hi: Byte)
    requires lo <= hi < 0x80
    ensures |Span(lo, hi)| == hi - lo + 1
    ensures forall k :: 0 <= k < |Span(lo, hi)| ==> Span(lo, hi)[k] == lo + k
    decreases hi - lo
  {
    if hi > lo {
      SpanAscending(lo, hi - 1);
    }
  }

  /**
    A three-byte ASCII token never fails to resolve. With b[2] >= b[0] it
    yields b[0]..b[2] ascending, b[2] - b[0] + 1 bytes; with b[2] < b[0] it
    yields b[0] alone.
   */
  lemma ResolveToken(b: seq<Byte>)
    requires |b| == 3 && b[0] < 0x80 && b[2] < 0x80
    ensures Resolved(b).Ok?
    ensures b[2] >= b[0] ==>
              && |Resolved(b).value| == b[2] - b[0] + 1
              && forall k :: 0 <= k < |Resolved(b).value| ==> Resolved(b).value[k] == b[0] + k
    ensures b[2] < b[0] ==> Resolved(b).value == [b[0]]
  {
    if b[2] >= b[0] {
      SpanAscending(b[0], b[2]);
    }
  }

  /**
    A token that passes valRegexRange resolves, and to at least two bytes,
    so the one-position rejection of RangeMutate never fires on it.
   */
  lemma ValidRangeResolves(b: seq<Byte>)
    requires IsValidRange(b)
    ensures Indexable(b) && Resolved(b).Ok?
    ensures |Resolved(b).value| >= 2
  {
    SpanCovers(b[0], b[2]);
  }

  /** `[:` and `:]` around colon-free bytes make a class shape. */
  lemma BracketedShape(mid: seq<Byte>)
    requires Colon !in mid
    ensures ClassShaped([91, 58] + mid + [58, 93])
  {
    var open, close: seq<Byte> := [91, 58], [58, 93];
    CountAppend(open + mid, close, Colon);
    CountAppend(open, mid, Colon);
    CountAbsent(mid, Colon);
    assert open[..1] == [91] && close[..1] == [58];
  }

  /** Both table keys are `[`, `:`, five letters, `:`, `]`: two colons each. */
  lemma CountColons()
    ensures ClassShaped(UpperName) && ClassShaped(LowerName)
  {
    var upper, lower: seq<Byte> := [117, 112, 112, 101, 114], [108, 111, 119, 101, 114];
    assert UpperName == [91, 58] + upper + [58, 93];
    assert LowerName == [91, 58] + lower + [58, 93];
    BracketedShape(upper);
    BracketedShape(lower);
  }

  /** The two table entries resolve to the 26 upper-case and 26 lower-case letters. */
  lemma PosixClassesResolve(name: seq<Byte>)
    requires name in PosixClasses
    ensures ClassShaped(name)
    ensures Indexable(PosixClasses[name]) && Resolved(PosixClasses[name]).Ok?
    ensures var v := Resolved(PosixClasses[name]).value;
            && |v| == 26
            && (name == UpperName ==> forall k :: 0 <= k < 26 ==> v[k] == 'A' as int + k)
            && (name == LowerName ==> forall k :: 0 <= k < 26 ==> v[k] == 'a' as int + k)
  {
    CountColons();
    assert UpperName != LowerName by { assert UpperName[2] != LowerName[2]; }
    if name == UpperName {
      assert PosixClasses[name] == [65, 45, 90];
      SpanAscending('A' as int, 'Z' as int);
    } else {
      assert PosixClasses[name] == [97, 45, 122];
      SpanAscending('a' as int, 'z' as int);
    }
  }
}
