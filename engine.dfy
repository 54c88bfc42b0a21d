/**
  The transformation engine of pkg/r/r.go: the struct `R`, whose methods
  rewrite RawBytes, From, To and DestString in place, and its single entry
  point `Churn`, which picks exactly one of delete, squeeze, single-byte
  replace, range translate and substring replace.

  Each method is proved against a function of the fields it may change
  (`State`); the laws of those functions are in Translate, Deletion and
  Ranges, and the dispatch laws at the end of this module.
 */
module Engine {
  import opened Bytes
  import opened Ranges
  import opened Translate
  import opened Deletion

  /** Action_DELETE and Action_SQUEEZE (pkg/r/r.go:11-14). */
  const ActionDelete: int := 1
  const ActionSqueeze: int := 2

  /** Flags (pkg/r/r.go:49-58): the options main.go sets from the command line. */
  datatype Flags = Flags(delString: seq<Byte>, squeezeByte: seq<Byte>, squeezeString: seq<Byte>, action: int)

  /** The fields of R that the engine writes. */
  datatype State = State(rawBytes: seq<Byte>, from: seq<Byte>, to: seq<Byte>, destString: seq<Byte>)

  // ---------------------------------------------------------------------
  // The effect of each method on State
  // ---------------------------------------------------------------------

  /** Replace (pkg/r/r.go:105-115). */
  function ReplaceOutcome(st: State): State
    requires |st.from| >= 1 || st.rawBytes == []
  {
    var out := if st.rawBytes == [] then [] else ReplaceByte(st.rawBytes, st.from[0], st.to);
    st.(rawBytes := out, destString := out)
  }

  /** ReplaceSlice (pkg/r/r.go:119-136). */
  function SliceOutcome(st: State): State
    requires |st.from| >= 1
  {
    var out := Subst(st.rawBytes, st.from, st.to);
    st.(rawBytes := out, destString := out)
  }

  /**
    What RangeMutate needs to run without a Go panic: its length-mismatch
    message prints the first byte of both ranges (pkg/r/r.go:232-239).
   */
  predicate MutateLoggable(from: seq<Byte>, to: seq<Byte>)
  {
    |from| == 1 || |to| == 1 || |from| == |to| || (from != [] && to != [])
  }

  /** RangeMutate (pkg/r/r.go:211-261): bytes change only past both guards. */
  function MutateOutcome(st: State): State
  {
    if Mappable(st.from, st.to) then st.(rawBytes := Transliterate(st.rawBytes, st.from, st.to)) else st
  }

  /**
    ReplaceRange (pkg/r/r.go:139-165): From and To are replaced by their
    resolved bytes (by the empty sequence when resolution fails, which ends
    the call), and DestString is set only when RangeMutate accepts.
   */
  function ReplaceRangeOutcome(st: State): State
    requires Indexable(st.from) && (Resolved(st.from).Ok? ==> Indexable(st.to))
  {
    match Resolved(st.from)
    case Err(_) => st.(from := [])
    case Ok(f) =>
      match Resolved(st.to)
      case Err(_) => st.(from := f, to := [])
      case Ok(t) =>
        var m := MutateOutcome(st.(from := f, to := t));
        if Mappable(f, t) then m.(destString := m.rawBytes) else m
  }

  /** ResolveRegexArg (pkg/r/r.go:312-343): the class step on both operands. */
  function ResolveArgsOutcome(st: State): State
  {
    st.(from := ClassLookup(st.from), to := ClassLookup(st.to))
  }

  /** DeleteRange (pkg/r/r.go:168-181) followed, on success, by DeleteOne (pkg/r/r.go:380-397). */
  function DeleteRangeOutcome(st: State): State
    requires Indexable(st.from)
  {
    match Resolved(st.from)
    case Err(_) => st.(from := [])
    case Ok(f) => st.(from := f, rawBytes := Keep(st.rawBytes, f))
  }

  /**
    What Delete needs to run without a Go panic or an endless loop: on the
    class path an unknown class leaves From to resolveRange, which must be
    able to index it; on the literal path an empty delete string would match
    at the cursor of a non-empty RawBytes forever without moving it.
   */
  predicate DeleteReady(delString: seq<Byte>, st: State)
  {
    if ClassShaped(delString) then delString in PosixClasses || Indexable(st.from)
    else |delString| >= 1 || st.rawBytes == []
  }

  /** Delete (pkg/r/r.go:347-376): the class path or the literal path, then DestString := RawBytes. */
  function DeleteOutcome(st: State, delString: seq<Byte>): State
    requires DeleteReady(delString, st)
  {
    if ClassShaped(delString) then
      var f := if delString in PosixClasses then PosixClasses[delString] else st.from;
      TableEntriesIndexable(delString);
      var st1 := DeleteRangeOutcome(st.(from := f));
      st1.(destString := st1.rawBytes)
    else
      var out := if st.rawBytes == [] then [] else DeleteLiteral(st.rawBytes, delString);
      st.(rawBytes := out, destString := out)
  }

  /** Every table entry can be handed to resolveRange. */
  lemma TableEntriesIndexable(name: seq<Byte>)
    ensures name in PosixClasses ==> Indexable(PosixClasses[name]) && RangeShaped(PosixClasses[name])
  {
  }

  // ---------------------------------------------------------------------
  // Dispatch (Churn, pkg/r/r.go:62-98)
  // ---------------------------------------------------------------------

  /** The five ways Churn can go. */
  datatype Route = DeleteRoute | SqueezeRoute | RangeRoute | SliceRoute | ReplaceRoute

  /** Churn's decision: an enabled delete or squeeze flag first, then the shape of From. */
  function RouteOf(flagEnabled: bool, action: int, from: seq<Byte>): Route
  {
    if flagEnabled && action == ActionDelete then DeleteRoute
    else if flagEnabled && action == ActionSqueeze then SqueezeRoute
    else if |from| > 1 && (RangeShaped(from) || ClassShaped(from)) then RangeRoute
    else if |from| > 1 then SliceRoute
    else ReplaceRoute
  }

  /** Churn's first step: an empty RawBytes is filled from RawString (pkg/r/r.go:68-70). */
  function Prepared(rawString: seq<Byte>, st: State): State
  {
    if st.rawBytes == [] then st.(rawBytes := rawString) else st
  }

  /** What the chosen operation needs to run without a Go panic or an endless loop. */
  predicate ChurnReady(rawString: seq<Byte>, flagEnabled: bool, flag: Flags, st: State)
  {
    match RouteOf(flagEnabled, flag.action, st.from)
    case DeleteRoute => DeleteReady(flag.delString, Prepared(rawString, st))
    case ReplaceRoute => |st.from| >= 1 || Prepared(rawString, st).rawBytes == []
    case _ => true
  }

  /**
    Churn's effect. A squeeze changes no field: Squeeze (pkg/r/r.go:401-418)
    builds a local buffer and never stores it. A range- or class-shaped From
    goes through ResolveRegexArg and, when that accepts, ReplaceRange; the
    branch that only logs (pkg/r/r.go:89-91) is kept as written.
   */
  function ChurnOutcome(rawString: seq<Byte>, flagEnabled: bool, flag: Flags, st: State): State
    requires ChurnReady(rawString, flagEnabled, flag, st)
  {
    var st0 := Prepared(rawString, st);
    match RouteOf(flagEnabled, flag.action, st.from)
    case DeleteRoute => DeleteOutcome(st0, flag.delString)
    case SqueezeRoute => st0
    case ReplaceRoute => ReplaceOutcome(st0)
    case SliceRoute => SliceOutcome(st0)
    case RangeRoute =>
      var st1 := ResolveArgsOutcome(st0);
      if !RegexArgsOk(st0.from, st0.to) then st1
      else if RangeShaped(st1.to) then ReplaceRangeOutcome(st1)
      else st1
  }

  // ---------------------------------------------------------------------
  // Laws of the dispatch
  // ---------------------------------------------------------------------

  /**
    A range- or class-shaped From: an unknown class is rejected, and when
    ResolveRegexArg rejects, RawBytes and DestString are as Churn found them. When it accepts, ReplaceRange is
    always reached (the logging-only branch cannot be taken), both operands
    resolve to at least two bytes, and the only way left for the translation
    to be refused is a length mismatch between the two resolved ranges.
   */
  lemma ChurnRangeRoute(rawString: seq<Byte>, flagEnabled: bool, flag: Flags, st: State)
    requires RouteOf(flagEnabled, flag.action, st.from) == RangeRoute
    ensures ChurnReady(rawString, flagEnabled, flag, st)
    ensures (ClassShaped(st.from) && st.from !in PosixClasses) || (ClassShaped(st.to) && st.to !in PosixClasses)
            ==> !RegexArgsOk(st.from, st.to)
    ensures var st0, out := Prepared(rawString, st), ChurnOutcome(rawString, flagEnabled, flag, st);
      !RegexArgsOk(st.from, st.to) ==> out.rawBytes == st0.rawBytes && out.destString == st.destString
    ensures var st0, out := Prepared(rawString, st), ChurnOutcome(rawString, flagEnabled, flag, st);
      var f, t := ClassLookup(st.from), ClassLookup(st.to);
      RegexArgsOk(st.from, st.to) ==>
        && Indexable(f) && Resolved(f).Ok? && |Resolved(f).value| >= 2
        && Indexable(t) && Resolved(t).Ok? && |Resolved(t).value| >= 2
        && out.from == Resolved(f).value && out.to == Resolved(t).value
        && (|Resolved(f).value| == |Resolved(t).value| ==>
              out.rawBytes == out.destString == Transliterate(st0.rawBytes, out.from, out.to))
        && (|Resolved(f).value| != |Resolved(t).value| ==>
              out.rawBytes == st0.rawBytes && out.destString == st.destString)
  {
    var st0 := Prepared(rawString, st);
    var st1 := ResolveArgsOutcome(st0);
    var out := ChurnOutcome(rawString, flagEnabled, flag, st);
    if RegexArgsOk(st.from, st.to) {
      var f, t := ClassLookup(st.from), ClassLookup(st.to);
      ValidRangeResolves(f);
      ValidRangeResolves(t);
      assert out == ReplaceRangeOutcome(st1);
      var rf, rt := Resolved(f).value, Resolved(t).value;
      assert Mappable(rf, rt) <==> |rf| == |rt|;
      assert out == MutateOutcome(st1.(from := rf, to := rt)).(destString := if Mappable(rf, rt) then out.rawBytes else st.destString);
    } else {
      assert out == st1;
    }
  }

  /**
    A From equal to To leaves the text as it was, whichever of replace,
    substring replace and range translate runs, provided a range-shaped
    operand is accepted by ResolveRegexArg.
   */
  lemma ChurnIdentity(rawString: seq<Byte>, flagEnabled: bool, flag: Flags, st: State)
    requires RouteOf(flagEnabled, flag.action, st.from) !in {DeleteRoute, SqueezeRoute}
    requires st.from == st.to && |st.from| >= 1
    requires RouteOf(flagEnabled, flag.action, st.from) == RangeRoute ==> RegexArgsOk(st.from, st.to)
    ensures ChurnReady(rawString, flagEnabled, flag, st)
    ensures var out := ChurnOutcome(rawString, flagEnabled, flag, st);
      out.rawBytes == out.destString == Prepared(rawString, st).rawBytes
  {
    var s := Prepared(rawString, st).rawBytes;
    match RouteOf(flagEnabled, flag.action, st.from)
    case ReplaceRoute =>
      ReplaceByteSingle(s, st.from[0], st.from[0]);
      assert st.to == [st.from[0]];
    case SliceRoute =>
      SubstIdentity(s, st.from);
    case RangeRoute =>
      var f := ClassLookup(st.from);
      ValidRangeResolves(f);
      TransliterateLaws(s, Resolved(f).value, Resolved(f).value);
  }

  /**
    An enabled delete flag runs Delete alone: To is untouched and DestString
    is the new RawBytes. A known class removes exactly its letters: every
    other byte value survives as often as it occurred.
   */
  lemma ChurnDeleteOnly(rawString: seq<Byte>, flagEnabled: bool, flag: Flags, st: State, x: Byte)
    requires flagEnabled && flag.action == ActionDelete
    requires DeleteReady(flag.delString, Prepared(rawString, st))
    ensures ChurnReady(rawString, flagEnabled, flag, st)
    ensures var out := ChurnOutcome(rawString, flagEnabled, flag, st);
      out.to == st.to && out.destString == out.rawBytes
    ensures var s, out := Prepared(rawString, st).rawBytes, ChurnOutcome(rawString, flagEnabled, flag, st);
      flag.delString == UpperName ==>
        Count(out.rawBytes, x) == if 'A' as int <= x <= 'Z' as int then 0 else Count(s, x)
    ensures var s, out := Prepared(rawString, st).rawBytes, ChurnOutcome(rawString, flagEnabled, flag, st);
      flag.delString == LowerName ==>
        Count(out.rawBytes, x) == if 'a' as int <= x <= 'z' as int then 0 else Count(s, x)
    ensures var s, out := Prepared(rawString, st).rawBytes, ChurnOutcome(rawString, flagEnabled, flag, st);
      !ClassShaped(flag.delString) && |flag.delString| >= 1 ==> out.rawBytes == DeleteLiteral(s, flag.delString)
  {
    var d := flag.delString;
    if d in PosixClasses {
      ClassLetters(d, x);
      KeepCounts(Prepared(rawString, st).rawBytes, Resolved(PosixClasses[d]).value, x);
    }
  }

  /** A byte is in the resolved entry of a table class exactly when it is one of its 26 letters. */
  lemma ClassLetters(name: seq<Byte>, x: Byte)
    requires name in PosixClasses
    ensures ClassShaped(name) && Indexable(PosixClasses[name]) && Resolved(PosixClasses[name]).Ok?
    ensures name == UpperName ==> (x in Resolved(PosixClasses[name]).value <==> 'A' as int <= x <= 'Z' as int)
    ensures name == LowerName ==> (x in Resolved(PosixClasses[name]).value <==> 'a' as int <= x <= 'z' as int)
  {
    PosixClassesResolve(name);
    var v := Resolved(PosixClasses[name]).value;
    if name == UpperName {
      RunMembers(v, 'A' as int, x);
    } else {
      RunMembers(v, 'a' as int, x);
    }
  }

  /** The members of a run of consecutive byte values starting at `lo`. */
  lemma RunMembers(v: seq<Byte>, lo: int, x: Byte)
    requires forall k :: 0 <= k < |v| ==> v[k] == lo + k
    ensures x in v <==> lo <= x < lo + |v|
  {
    if lo <= x < lo + |v| {
      assert v[x - lo] == x;
    }
  }

  // ---------------------------------------------------------------------
  // The struct R (pkg/r/r.go:30-46)
  // ---------------------------------------------------------------------

  class R {
    var rawString: seq<Byte>
    var destString: seq<Byte>
    var rawBytes: seq<Byte>
    var from: seq<Byte>
    var to: seq<Byte>
    var flagEnabled: bool
    var flag: Flags

    /** The fields main.go fills before calling Churn; DestString starts empty. */
    constructor (rawString: seq<Byte>, rawBytes: seq<Byte>, from: seq<Byte>, to: seq<Byte>, flagEnabled: bool, flag: Flags)
      ensures this.rawString == rawString && this.rawBytes == rawBytes
      ensures this.from == from && this.to == to
      ensures this.flagEnabled == flagEnabled && this.flag == flag
      ensures destString == []
    {
      this.rawString := rawString;
      this.rawBytes := rawBytes;
      this.from := from;
      this.to := to;
      this.flagEnabled := flagEnabled;
      this.flag := flag;
      destString := [];
    }

    /** The fields the engine writes. */
    function Snapshot(): State
      reads this
    {
      State(rawBytes, from, to, destString)
    }

    /** Churn (pkg/r/r.go:62-98): runs exactly one operation. */
    method Churn()
      requires ChurnReady(rawString, flagEnabled, flag, Snapshot())
      modifies this`rawBytes, this`from, this`to, this`destString
      ensures Snapshot() == ChurnOutcome(rawString, flagEnabled, flag, old(Snapshot()))
    {
      ghost var st := Snapshot();
      ghost var route := RouteOf(flagEnabled, flag.action, from);
      ghost var want := ChurnOutcome(rawString, flagEnabled, flag, st);
      if rawBytes == [] {
        rawBytes := rawString;
      }
      ghost var st0 := Snapshot();
      assert st0 == Prepared(rawString, st);
      if flagEnabled {
        if flag.action == ActionDelete {
          Delete();
          assert want == DeleteOutcome(st0, flag.delString);
          assert Snapshot() == want;
          return;
        } else if flag.action == ActionSqueeze {
          // Squeeze keeps its result in a local buffer: no field changes.
          assert want == st0;
          assert Snapshot() == want;
          return;
        }
      }
      if |from| > 1 {
        if RangeShaped(from) || (Colon in from && ClassShaped(from)) {
          assert route == RangeRoute;
          var n := ResolveRegexArg();
          ghost var st1 := Snapshot();
          if n != 0 {
            assert want == st1;
            assert Snapshot() == want;
            return;
          }
          assert IsValidRange(from);
          if RangeShaped(to) {
            assert IsValidRange(to);
            ReplaceRange();
            assert want == ReplaceRangeOutcome(st1);
            assert Snapshot() == want;
          }
        } else {
          assert route == SliceRoute by {
            ShapeNeedsColon(from);
          }
          ReplaceSlice();
          assert want == SliceOutcome(st0);
          assert Snapshot() == want;
        }
      } else {
        assert route == ReplaceRoute;
        Replace();
        assert want == ReplaceOutcome(st0);
        assert Snapshot() == want;
      }
    }

    /** Replace (pkg/r/r.go:105-115): splices `to` over each byte equal to from[0]. */
    method Replace()
      requires |from| >= 1 || rawBytes == []
      modifies this`rawBytes, this`destString
      ensures Snapshot() == ReplaceOutcome(old(Snapshot()))
    {
      var raw, pattern, replacement := rawBytes, from, to;
      ghost var s := raw;
      ghost var c: Byte := if |pattern| >= 1 then pattern[0] else 0;
      ghost var k, done := 0, [];
      var i := 0;
      while i < |raw|
        invariant 0 <= k <= |s|
        invariant done == ReplaceByte(s[..k], c, replacement)
        invariant raw == done + s[k..] && i == |done|
        invariant s == [] || |pattern| >= 1
        decreases |s| - k
      {
        ghost var raw', done' := ReplaceByteStep(s, c, replacement, k, done, raw);
        if raw[i] == pattern[0] {
          raw := raw[..i] + replacement + raw[i + 1..];
          i := i + |replacement|;
        } else {
          i := i + 1;
        }
        assert raw == raw';
        done, k := done', k + 1;
      }
      assert s[..k] == s;
      rawBytes := raw;
      destString := rawBytes;
    }

    /** ReplaceSlice (pkg/r/r.go:119-136): builds a fresh buffer left to right. */
    method ReplaceSlice()
      requires |from| >= 1
      modifies this`rawBytes, this`destString
      ensures Snapshot() == SliceOutcome(old(Snapshot()))
    {
      var raw, pattern, replacement := rawBytes, from, to;
      ghost var want := Subst(raw, pattern, replacement);
      var buffer: seq<Byte> := [];
      var i := 0;
      while i < |raw|
        invariant 0 <= i <= |raw|
        invariant buffer + Subst(raw[i..], pattern, replacement) == want
      {
        var matched := false;
        if i + |pattern| <= |raw| {
          matched := ByteSliceEqual(raw[i..i + |pattern|], pattern);
        }
        ghost var buffer', next := SubstAdvance(raw, pattern, replacement, i, buffer, matched);
        if matched {
          buffer, i := buffer + replacement, i + |pattern|;
        } else {
          buffer, i := buffer + [raw[i]], i + 1;
        }
        assert buffer == buffer' && i == next;
      }
      assert raw[i..] == [];
      rawBytes := buffer;
      destString := rawBytes;
    }

    /** ReplaceRange (pkg/r/r.go:139-165). */
    method ReplaceRange()
      requires Indexable(from) && (Resolved(from).Ok? ==> Indexable(to))
      modifies this`from, this`to, this`rawBytes, this`destString
      ensures Snapshot() == ReplaceRangeOutcome(old(Snapshot()))
    {
      var r := ResolveRange(from);
      if r.Err? {
        from := [];
        return;
      }
      from := r.value;
      r := ResolveRange(to);
      if r.Err? {
        to := [];
        return;
      }
      to := r.value;
      var verdict := RangeMutate();
      if verdict == 0 {
        destString := rawBytes;
      }
    }

    /**
      RangeMutate (pkg/r/r.go:211-261), with the goroutine per byte run as
      an ordinary loop over the indices: returns 1 and changes nothing when
      either range has one position or their lengths differ, else returns 0
      after running every byte through the inner j loop.
     */
    method RangeMutate() returns (verdict: int)
      requires MutateLoggable(from, to)
      modifies this`rawBytes
      ensures verdict == if Mappable(from, to) then 0 else 1
      ensures Snapshot() == MutateOutcome(old(Snapshot()))
    {
      if |from| == 1 || |to| == 1 {
        return 1;
      }
      if |from| != |to| {
        return 1;
      }
      ghost var s := rawBytes;
      var i := 0;
      while i < |rawBytes|
        invariant 0 <= i <= |rawBytes| == |s|
        invariant forall k :: 0 <= k < i ==> rawBytes[k] == Chain(s[k], from, to, 0)
        invariant forall k :: i <= k < |s| ==> rawBytes[k] == s[k]
      {
        var j := 0;
        while j < |from|
          invariant 0 <= j <= |from|
          invariant |rawBytes| == |s|
          invariant Chain(rawBytes[i], from, to, j) == Chain(s[i], from, to, 0)
          invariant forall k :: 0 <= k < i ==> rawBytes[k] == Chain(s[k], from, to, 0)
          invariant forall k :: i < k < |s| ==> rawBytes[k] == s[k]
        {
          if rawBytes[i] == from[j] {
            rawBytes := rawBytes[i := to[j]];
          }
          j := j + 1;
        }
        i := i + 1;
      }
      assert rawBytes == Transliterate(s, from, to);
      return 0;
    }

    /** ResolveRegexArg (pkg/r/r.go:312-343): 0 on success, 1 otherwise. */
    method ResolveRegexArg() returns (code: int)
      modifies this`from, this`to
      ensures code == if RegexArgsOk(old(from), old(to)) then 0 else 1
      ensures Snapshot() == ResolveArgsOutcome(old(Snapshot()))
    {
      ShapeNeedsColon(from);
      ShapeNeedsColon(to);
      var errNo := 0;
      if Colon in from && ClassShaped(from) {
        var ok := from in PosixClasses;
        if !ok {
          errNo := errNo + 1;
        }
        from := if ok then PosixClasses[from] else [];
      }
      if Colon in to && ClassShaped(to) {
        var ok := to in PosixClasses;
        if !ok {
          errNo := errNo + 1;
        }
        to := if ok then PosixClasses[to] else [];
      }
      if errNo == 0 && IsValidRange(from) && IsValidRange(to) {
        return 0;
      } else {
        return 1;
      }
    }

    /**
      Delete (pkg/r/r.go:347-376). A class-shaped delete string goes to
      DeleteRange, with From set to its table entry when it has one; any
      other delete string is spliced out of RawBytes in place.
     */
    method Delete()
      requires DeleteReady(flag.delString, Snapshot())
      modifies this`from, this`rawBytes, this`destString
      ensures Snapshot() == DeleteOutcome(old(Snapshot()), flag.delString)
    {
      var d := flag.delString;
      if Colon in d && ClassShaped(d) {
        if d in PosixClasses {
          from := PosixClasses[d];
        }
        TableEntriesIndexable(d);
        DeleteRange();
      } else {
        var raw := rawBytes;
        ghost var target := if |d| >= 1 then DeleteLiteral(raw, d) else raw;
        var i := 0;
        while i < |raw|
          invariant 0 <= i
          invariant unchanged(this)
          invariant |d| >= 1 || raw == []
          invariant |d| >= 1 ==> DeleteAt(raw, d, i) == target
          decreases |raw| - i
        {
          var matched := false;
          if |d| < |raw[i..]| {
            matched := ByteSliceEqual(d, raw[i..i + |d|]);
          }
          ghost var raw', next := DeleteAdvance(raw, d, i, matched);
          if matched {
            raw := raw[..i] + raw[i + |d|..];
            i := i + |PackageDelString|;
          } else {
            i := i + 1;
          }
          assert raw == raw' && i == next;
        }
        assert !ClassShaped(d) by {
          ShapeNeedsColon(d);
        }
        assert |d| >= 1 ==> DeleteAt(raw, d, i) == raw;
        rawBytes := raw;
      }
      destString := rawBytes;
    }

    /** DeleteRange (pkg/r/r.go:168-181). */
    method DeleteRange()
      requires Indexable(from)
      modifies this`from, this`rawBytes
      ensures Snapshot() == DeleteRangeOutcome(old(Snapshot()))
    {
      var r := ResolveRange(from);
      if r.Err? {
        from := [];
        return;
      }
      from := r.value;
      DeleteOne();
    }

    /** DeleteOne (pkg/r/r.go:380-397): keeps each byte that matches no byte of From. */
    method DeleteOne()
      modifies this`rawBytes
      ensures rawBytes == Keep(old(rawBytes), from)
    {
      var buffer: seq<Byte> := [];
      var delString := from;
      var i := 0;
      while i < |rawBytes|
        invariant 0 <= i <= |rawBytes|
        invariant buffer == Keep(rawBytes[..i], delString)
      {
        var shouldDelete := false;
        var j := 0;
        while j < |delString|
          invariant 0 <= j <= |delString|
          invariant !shouldDelete && rawBytes[i] !in delString[..j]
        {
          if rawBytes[i] == delString[j] {
            shouldDelete := true;
            break;
          }
          j := j + 1;
        }
        assert shouldDelete <==> rawBytes[i] in delString;
        assert rawBytes[..i + 1] == rawBytes[..i] + [rawBytes[i]];
        if !shouldDelete {
          buffer := buffer + [rawBytes[i]];
        }
        i := i + 1;
      }
      assert rawBytes[..i] == rawBytes;
      rawBytes := buffer;
    }
  }
}
