/**
  Concrete runs of the model: a row of the replace table in
  pkg/r/r_test.go:15-29, a range translation, the chaining of RangeMutate's
  inner loop, and the edge cases of the delete paths and of resolveRange.
 */
module Examples {
  import opened Bytes
  import opened Ranges
  import opened Translate
  import opened Deletion
  import opened Engine

  /** No flag: Churn chooses by the shape of From. */
  const NoFlags: Flags := Flags([], [], [], 0)

  /** A delete flag for `d`. */
  function DeleteFlags(d: seq<Byte>): Flags
  {
    Flags(d, [], [], ActionDelete)
  }

  // ---------------------------------------------------------------------
  // Single-byte replace
  // ---------------------------------------------------------------------

  /** Every 'i' of "kiViviPig" becomes 'W'. */
  lemma ReplaceTableBytes()
    ensures ReplaceByte(Ascii("kiViviPig"), 'i' as int, ['W' as int]) == Ascii("kWVWvWPWg")
  {
    var s: seq<Byte> := [107, 105, 86, 105, 118, 105, 80, 105, 103];
    assert Ascii("kiViviPig") == s;
    assert Ascii("kWVWvWPWg") == [107, 87, 86, 87, 118, 87, 80, 87, 103];
    ReplaceByteSingle(s, 105, 87);
  }

  /** The row `{"kiViviPig", "kWVWvWPWg", 'i', 'W'}` of the replace table, through Churn. */
  lemma ReplaceTableRow()
    ensures ChurnReady(Ascii("kiViviPig"), false, NoFlags, State([], Ascii("i"), Ascii("W"), []))
    ensures ChurnOutcome(Ascii("kiViviPig"), false, NoFlags, State([], Ascii("i"), Ascii("W"), [])).destString
            == Ascii("kWVWvWPWg")
  {
    assert Ascii("i") == [105] && Ascii("W") == [87];
    assert RouteOf(false, 0, [105]) == ReplaceRoute;
    ReplaceTableBytes();
  }

  // ---------------------------------------------------------------------
  // Range translate
  // ---------------------------------------------------------------------

  /** `a-c` and `x-z` are accepted by ResolveRegexArg and are not classes. */
  lemma LowerRangesAccepted()
    ensures RegexArgsOk(Ascii("a-c"), Ascii("x-z"))
    ensures ClassLookup(Ascii("a-c")) == Ascii("a-c") && ClassLookup(Ascii("x-z")) == Ascii("x-z")
  {
    assert Ascii("a-c") == [97, 45, 99] && Ascii("x-z") == [120, 45, 122];
    ShapeNeedsColon(Ascii("a-c"));
    ShapeNeedsColon(Ascii("x-z"));
  }

  /** RangeMutate over a..c and x..z sends "abc123" to "xyz123". */
  lemma RangeTranslationBytes()
    ensures Transliterate(Ascii("abc123"), Span(97, 99), Span(120, 122)) == Ascii("xyz123")
  {
    var s: seq<Byte> := [97, 98, 99, 49, 50, 51];
    assert Ascii("abc123") == s;
    assert Ascii("xyz123") == [120, 121, 122, 49, 50, 51];
    forall k | 0 <= k < |s|
      ensures Chain(s[k], Span(97, 99), Span(120, 122), 0) == if 97 <= s[k] <= 99 then s[k] + 23 else s[k]
    {
      AsciiRangeMapping(97, 99, 120, 122, s[k]);
    }
  }

  /** `a-c` onto `x-z` turns "abc123" into "xyz123", through Churn. */
  lemma RangeTranslation()
    ensures ChurnReady(Ascii("abc123"), false, NoFlags, State([], Ascii("a-c"), Ascii("x-z"), []))
    ensures ChurnOutcome(Ascii("abc123"), false, NoFlags, State([], Ascii("a-c"), Ascii("x-z"), [])).destString
            == Ascii("xyz123")
  {
    LowerRangesAccepted();
    RangeTranslationBytes();
    assert Ascii("a-c") == [97, 45, 99] && Ascii("x-z") == [120, 45, 122];
    ChurnRangeRoute(Ascii("abc123"), false, NoFlags, State([], Ascii("a-c"), Ascii("x-z"), []));
    SpanAscending(97, 99);
    SpanAscending(120, 122);
  }

  /** `a-c` and `b-d` are accepted by ResolveRegexArg and are not classes. */
  lemma OverlappingRangesAccepted()
    ensures RegexArgsOk(Ascii("a-c"), Ascii("b-d"))
    ensures ClassLookup(Ascii("a-c")) == Ascii("a-c") && ClassLookup(Ascii("b-d")) == Ascii("b-d")
  {
    assert Ascii("a-c") == [97, 45, 99] && Ascii("b-d") == [98, 45, 100];
    ShapeNeedsColon(Ascii("a-c"));
    ShapeNeedsColon(Ascii("b-d"));
  }

  /**
    RangeMutate over a..c and b..d sends all of "abc" to "ddd": once 'a' has
    become 'b' the inner loop meets from[1] == 'b' and carries it on to 'c',
    then to 'd'.
   */
  lemma RangeChainingBytes()
    ensures Transliterate(Ascii("abc"), Span(97, 99), Span(98, 100)) == Ascii("ddd")
  {
    SpanAscending(97, 99);
    SpanAscending(98, 100);
    assert Span(97, 99) == [97, 98, 99] && Span(98, 100) == [98, 99, 100];
    assert Ascii("abc") == [97, 98, 99] && Ascii("ddd") == [100, 100, 100];
  }

  /** `a-c` onto `b-d` turns "abc" into "ddd", through Churn. */
  lemma RangeChaining()
    ensures ChurnReady(Ascii("abc"), false, NoFlags, State([], Ascii("a-c"), Ascii("b-d"), []))
    ensures ChurnOutcome(Ascii("abc"), false, NoFlags, State([], Ascii("a-c"), Ascii("b-d"), [])).destString
            == Ascii("ddd")
  {
    OverlappingRangesAccepted();
    assert Ascii("a-c") == [97, 45, 99] && Ascii("b-d") == [98, 45, 100];
    ChurnRangeRoute(Ascii("abc"), false, NoFlags, State([], Ascii("a-c"), Ascii("b-d"), []));
    SpanAscending(97, 99);
    SpanAscending(98, 100);
    RangeChainingBytes();
  }

  /** resolveRange does not look at the middle byte of a three-byte token, and rejects "ab". */
  lemma ResolveIgnoresMiddle()
    ensures Resolved(Ascii("a+c")) == Ok(Ascii("abc"))
    ensures Resolved(Ascii("ab")) == Err(NotInRightFormat)
  {
    assert Ascii("a+c") == [97, 43, 99] && Ascii("ab") == [97, 98] && Ascii("abc") == [97, 98, 99];
    SpanAscending(97, 99);
    assert Span(97, 99) == [97, 98, 99];
  }

  /** valRegexRange accepts a hyphen in any position, and rejects a descending or hyphen-free token. */
  lemma HyphenAnywhere()
    ensures IsValidRange(Ascii("-az"))
    ensures !IsValidRange(Ascii("z-a")) && !IsValidRange(Ascii("abc"))
  {
    assert Ascii("-az") == [45, 97, 122] && Ascii("z-a") == [122, 45, 97] && Ascii("abc") == [97, 98, 99];
  }

  // ---------------------------------------------------------------------
  // Delete
  // ---------------------------------------------------------------------

  /** The literal path keeps the final copy of "ab" in "ababab". */
  lemma DeleteKeepsFinalMatchBytes()
    ensures DeleteLiteral(Ascii("ababab"), Ascii("ab")) == Ascii("ab")
  {
    var d: seq<Byte> := [97, 98];
    assert Ascii("ababab") == d + d + d && Ascii("ab") == d;
    DeleteThreeCopies(d);
  }

  /**
    Deleting "ab" from "ababab" leaves "ab", through Churn: the match that
    ends at the last byte is never removed.
   */
  lemma DeleteKeepsFinalMatch()
    ensures ChurnReady(Ascii("ababab"), true, DeleteFlags(Ascii("ab")), State([], [], [], []))
    ensures ChurnOutcome(Ascii("ababab"), true, DeleteFlags(Ascii("ab")), State([], [], [], [])).destString
            == Ascii("ab")
  {
    assert Ascii("ab") == [97, 98];
    ShapeNeedsColon(Ascii("ab"));
    DeleteKeepsFinalMatchBytes();
  }

  /**
    Deleting "ab" from "ababx" leaves "x": the cursor stays put after a
    removal, so the copy that slides under it is removed too.
   */
  lemma DeleteRescansAfterRemoval()
    ensures DeleteLiteral(Ascii("ababx"), Ascii("ab")) == Ascii("x")
  {
    var d, x: seq<Byte> := [97, 98], [120];
    assert Ascii("ababx") == d + d + x && Ascii("ab") == d && Ascii("x") == x;
    DeleteRescan(d, x);
  }

  /** Deleting "b" from "ab" changes nothing: the only match ends at the last byte. */
  lemma DeleteLastByteStays()
    ensures DeleteLiteral(Ascii("ab"), Ascii("b")) == Ascii("ab")
  {
    var s: seq<Byte> := [97, 98];
    assert Ascii("ab") == s && Ascii("b") == [98];
    assert s[0..1] == [97];
    assert DeleteAt(s, [98], 0) == DeleteAt(s, [98], 1) == DeleteAt(s, [98], 2) == s;
  }

  /** The table keys spell `[:upper:]` and `[:lower:]`. */
  lemma ClassNameSpelling()
    ensures Ascii("[:upper:]") == UpperName && Ascii("[:lower:]") == LowerName
  {
  }

  /** DeleteOne keeps 'a' and 'c' of "aBc" and drops 'B' for any range holding 'B' but neither of the others. */
  lemma KeepAbc(v: seq<Byte>)
    requires 97 !in v && 66 in v && 99 !in v
    ensures Keep([97, 66, 99], v) == [97, 99]
  {
    var s: seq<Byte> := [97, 66, 99];
    assert s[..2] == [97, 66] && [97, 66][..1] == [97] && [97][..0] == [];
    assert Keep([97], v) == [97];
    assert Keep([97, 66], v) == [97];
  }

  /** DeleteOne with the resolved `[:upper:]` entry drops the 'B' of "aBc". */
  lemma DeleteUpperClassBytes()
    ensures UpperName in PosixClasses
    ensures Indexable(PosixClasses[UpperName]) && Resolved(PosixClasses[UpperName]).Ok?
    ensures Keep(Ascii("aBc"), Resolved(PosixClasses[UpperName]).value) == Ascii("ac")
  {
    ClassLetters(UpperName, 97);
    ClassLetters(UpperName, 66);
    ClassLetters(UpperName, 99);
    KeepAbc(Resolved(PosixClasses[UpperName]).value);
    assert Ascii("aBc") == [97, 66, 99] && Ascii("ac") == [97, 99] by {
      AbcSpelling();
    }
  }

  /** The bytes of "aBc" and "ac". */
  lemma AbcSpelling()
    ensures Ascii("aBc") == [97, 66, 99] && Ascii("ac") == [97, 99]
  {
  }

  /** Deleting the class `[:upper:]` from "aBc" leaves "ac", through Churn. */
  lemma DeleteUpperClass()
    ensures ChurnReady(Ascii("aBc"), true, DeleteFlags(Ascii("[:upper:]")), State([], [], [], []))
    ensures ChurnOutcome(Ascii("aBc"), true, DeleteFlags(Ascii("[:upper:]")), State([], [], [], [])).destString
            == Ascii("ac")
  {
    ClassNameSpelling();
    DeleteUpperClassBytes();
    ClassLetters(UpperName, 97);
  }
}
