/**
  The two delete paths of pkg/r/r.go as functions on byte sequences, with
  their laws: the class path (`DeleteOne`, which drops every byte that is a
  member of the resolved range) and the literal path of `Delete`, which
  splices occurrences of the delete string out of RawBytes in place.
 */
module Deletion {
  import opened Bytes

  // ---------------------------------------------------------------------
  // DeleteOne (pkg/r/r.go:380-397)
  // ---------------------------------------------------------------------

  /** What DeleteOne builds: the bytes of `s` that are not in `del`, in order. */
  function Keep(s: seq<Byte>, del: seq<Byte>): seq<Byte>
  {
    if s == [] then []
    else Keep(s[..|s| - 1], del) + (if s[|s| - 1] in del then [] else [s[|s| - 1]])
  }

  /** How many bytes of `s` are members of `del`. */
  function CountIn(s: seq<Byte>, del: seq<Byte>): nat
  {
    if s == [] then 0
    else CountIn(s[..|s| - 1], del) + (if s[|s| - 1] in del then 1 else 0)
  }

  /**
    `idx` lists, in increasing order, exactly the positions of `s` whose
    bytes are not in `del`, and `t` holds the bytes at those positions.
   */
  ghost predicate KeptPositions(t: seq<Byte>, s: seq<Byte>, del: seq<Byte>, idx: seq<nat>)
  {
    && |idx| == |t|
    && (forall k :: 0 <= k < |idx| ==> idx[k] < |s| && t[k] == s[idx[k]])
    && (forall k, l :: 0 <= k < l < |idx| ==> idx[k] < idx[l])
    && (forall i :: 0 <= i < |s| ==> (s[i] !in del <==> i in idx))
  }

  /**
    DeleteOne keeps exactly the non-member bytes, in their input order: the
    positions it keeps are, in increasing order, all those whose byte is not
    in `del`.
   */
  lemma {:induction false} KeepOrder(s: seq<Byte>, del: seq<Byte>) returns (idx: seq<nat>)
    ensures KeptPositions(Keep(s, del), s, del, idx)
  {
    if s == [] {
      return [];
    }
    var s', b := s[..|s| - 1], s[|s| - 1];
    var idx' := KeepOrder(s', del);
    if b in del {
      idx := idx';
    } else {
      idx := idx' + [|s'|];
      assert forall i :: 0 <= i < |s'| ==> (i in idx <==> i in idx');
    }
  }

  /**
    No member of `del` survives DeleteOne, and every other byte value
    survives as often as it occurred in the input.
   */
  lemma {:induction false} KeepCounts(s: seq<Byte>, del: seq<Byte>, x: Byte)
    ensures Count(Keep(s, del), x) == if x in del then 0 else Count(s, x)
  {
    if s != [] {
      var s', b := s[..|s| - 1], s[|s| - 1];
      KeepCounts(s', del, x);
      var k := Keep(s', del);
      if b in del {
        assert Keep(s, del) == k;
      } else {
        assert (k + [b])[..|k + [b]| - 1] == k;
      }
    }
  }

  /** DeleteOne's output is |s| minus the number of member bytes long. */
  lemma {:induction false} KeepLength(s: seq<Byte>, del: seq<Byte>)
    ensures |Keep(s, del)| == |s| - CountIn(s, del)
  {
    if s != [] {
      KeepLength(s[..|s| - 1], del);
    }
  }

  // ---------------------------------------------------------------------
  // The literal path of Delete (pkg/r/r.go:361-372)
  // ---------------------------------------------------------------------

  /**
    The package-level DelString (pkg/r/r.go:26). It is empty, so the cursor
    step `i += len(DelString)` after a deletion (pkg/r/r.go:368) adds nothing.
   */
  const PackageDelString: seq<Byte> := []

  /**
    The literal delete loop from cursor `i` on. A match of `d` at the cursor
    is removed only when it is STRICTLY shorter than what is left
    (`len(DelString) < len(RawBytes[i:])`), so a match ending at the last byte
    stays; after a removal the cursor advances by |PackageDelString|, that
    is, it stays put and the bytes that moved under it are examined next.
   */
  function DeleteAt(s: seq<Byte>, d: seq<Byte>, i: nat): seq<Byte>
    requires |d| >= 1
    decreases |s| - i
  {
    if i >= |s| then s
    else if |d| < |s| - i && s[i..i + |d|] == d then DeleteAt(s[..i] + s[i + |d|..], d, i + |PackageDelString|)
    else DeleteAt(s, d, i + 1)
  }

  /** One step of the literal loop at cursor `i`, as the loop body takes it. */
  lemma DeleteAdvance(s: seq<Byte>, d: seq<Byte>, i: nat, matched: bool) returns (s': seq<Byte>, next: nat)
    requires |d| >= 1 && i < |s|
    requires matched <==> |d| < |s[i..]| && d == s[i..i + |d|]
    ensures s' == if matched then s[..i] + s[i + |d|..] else s
    ensures next == if matched then i + |PackageDelString| else i + 1
    ensures DeleteAt(s', d, next) == DeleteAt(s, d, i)
  {
    if matched {
      s', next := s[..i] + s[i + |d|..], i + |PackageDelString|;
    } else {
      s', next := s, i + 1;
    }
  }

  /** What the literal path leaves in RawBytes. */
  function DeleteLiteral(s: seq<Byte>, d: seq<Byte>): seq<Byte>
    requires |d| >= 1
  {
    DeleteAt(s, d, 0)
  }

  /** `d` occurs at `j` and ends before the last byte of `s`: the matches the loop can remove. */
  predicate InteriorAt(s: seq<Byte>, d: seq<Byte>, j: int)
  {
    0 <= j && j + |d| < |s| && s[j..j + |d|] == d
  }

  /** The length law: the loop removes some number k of whole copies of `d`. */
  lemma {:induction false} DeleteLength(s: seq<Byte>, d: seq<Byte>, i: nat) returns (k: nat)
    requires |d| >= 1
    ensures |DeleteAt(s, d, i)| == |s| - k * |d|
    decreases |s| - i
  {
    if i >= |s| {
      k := 0;
    } else if |d| < |s| - i && s[i..i + |d|] == d {
      var k' := DeleteLength(s[..i] + s[i + |d|..], d, i + |PackageDelString|);
      k := k' + 1;
      assert k * |d| == k' * |d| + |d|;
    } else {
      k := DeleteLength(s, d, i + 1);
    }
  }

  /** The last byte of the input is never removed, so it ends the output too. */
  lemma {:induction false} DeleteKeepsLast(s: seq<Byte>, d: seq<Byte>, i: nat)
    requires |d| >= 1 && s != []
    ensures DeleteAt(s, d, i) != [] && DeleteAt(s, d, i)[|DeleteAt(s, d, i)| - 1] == s[|s| - 1]
    decreases |s| - i
  {
    if i >= |s| {
    } else if |d| < |s| - i && s[i..i + |d|] == d {
      DeleteKeepsLast(s[..i] + s[i + |d|..], d, i + |PackageDelString|);
    } else {
      DeleteKeepsLast(s, d, i + 1);
    }
  }

  /** With no removable match from `i` on, the loop changes nothing. */
  lemma {:induction false} DeleteNoMatch(s: seq<Byte>, d: seq<Byte>, i: nat)
    requires |d| >= 1
    requires forall j :: i <= j ==> !InteriorAt(s, d, j)
    ensures DeleteAt(s, d, i) == s
    decreases |s| - i
  {
    if i < |s| {
      assert !InteriorAt(s, d, i);
      DeleteNoMatch(s, d, i + 1);
    }
  }

  /** With a removable match from `i` on, the output is strictly shorter. */
  lemma {:induction false} DeleteShrinks(s: seq<Byte>, d: seq<Byte>, i: nat, j: nat)
    requires |d| >= 1 && i <= j && InteriorAt(s, d, j)
    ensures |DeleteAt(s, d, i)| < |s|
    decreases |s| - i
  {
    if |d| < |s| - i && s[i..i + |d|] == d {
      var k := DeleteLength(s[..i] + s[i + |d|..], d, i + |PackageDelString|);
    } else {
      assert i != j;
      DeleteShrinks(s, d, i + 1, j);
    }
  }

  /** Of three back-to-back copies of `d` only the last survives: it ends at the last byte. */
  lemma DeleteThreeCopies(d: seq<Byte>)
    requires |d| >= 1
    ensures DeleteLiteral(d + d + d, d) == d
  {
    var s, t := d + d + d, d + d;
    assert s[0..|d|] == d && s[..0] + s[|d|..] == t;
    assert t[0..|d|] == d && t[..0] + t[|d|..] == d;
    DeleteNoMatch(d, d, 0);
    assert DeleteAt(t, d, 0) == DeleteAt(d, d, 0);
    assert DeleteAt(s, d, 0) == DeleteAt(t, d, 0);
  }

  /**
    The cursor stays put after a removal: two copies of `d` in front of a
    tail `x` no longer than `d` are both removed, the second once it has slid
    under the cursor.
   */
  lemma DeleteRescan(d: seq<Byte>, x: seq<Byte>)
    requires 1 <= |x| <= |d|
    ensures DeleteLiteral(d + d + x, d) == x
  {
    var s, t := d + d + x, d + x;
    assert s[0..|d|] == d && s[..0] + s[|d|..] == t;
    assert t[0..|d|] == d && t[..0] + t[|d|..] == x;
    DeleteNoMatch(x, d, 0);
    assert DeleteAt(t, d, 0) == DeleteAt(x, d, 0);
    assert DeleteAt(s, d, 0) == DeleteAt(t, d, 0);
  }

  /**
    The literal path leaves RawBytes unchanged exactly when `d` occurs
    nowhere except, possibly, as a match that ends at the last byte.
   */
  lemma DeleteUnchangedIff(s: seq<Byte>, d: seq<Byte>)
    requires |d| >= 1
    ensures DeleteLiteral(s, d) == s <==> forall j :: !InteriorAt(s, d, j)
  {
    if forall j :: !InteriorAt(s, d, j) {
      DeleteNoMatch(s, d, 0);
    } else {
      var j :| InteriorAt(s, d, j);
      DeleteShrinks(s, d, 0, j);
    }
  }
}
