/** The part of Go's `strings` package the sanitiser relies on, over byte
    strings: a Go `string` is a sequence of bytes and `len` counts bytes.

    - `Split(s)` is `strings.Split(s, " ")`: the pieces between single spaces,
      keeping the empty pieces that leading, trailing or repeated spaces make.
    - `Join(ts)` is `strings.Join(ts, " ")`.
    - `ToLower(s)` is `strings.ToLower(s)` restricted to ASCII letters. */
module GoStrings {

  newtype byte = x: int | 0 <= x < 256

  type Bytes = seq<byte>

  /** The separator of `Split` and `Join`, the byte of " ". */
  const Space: byte := 32

  /** Number of occurrences of `b` in `s`. */
  function Count(s: Bytes, b: byte): nat
  {
    if |s| == 0 then 0 else (if s[0] == b then 1 else 0) + Count(s[1..], b)
  }

  predicate IsUpper(b: byte)
  {
    65 <= b <= 90
  }

  /** Lower-casing of one byte: 'A'..'Z' become 'a'..'z', every other byte is kept. */
  function LowerByte(b: byte): (r: byte)
    ensures !IsUpper(r)
    ensures !IsUpper(b) ==> r == b
    ensures IsUpper(b) ==> r as int == b as int + 32
  {
    if IsUpper(b) then b + 32 else b
  }

  /** ASCII lower-casing, byte by byte; the length never changes. */
  function ToLower(s: Bytes): (r: Bytes)
    ensures |r| == |s|
  {
    seq(|s|, i requires 0 <= i < |s| => LowerByte(s[i]))
  }

  /** `strings.Split(s, " ")`: always at least one piece, one more piece than
      there are spaces, and no piece contains a space. */
  function Split(s: Bytes): (r: seq<Bytes>)
    ensures |r| == Count(s, Space) + 1
    ensures forall i :: 0 <= i < |r| ==> Space !in r[i]
  {
    if |s| == 0 then [[]]
    else
      var rest := Split(s[1..]);
      if s[0] == Space then [[]] + rest
      else [[s[0]] + rest[0]] + rest[1..]
  }

  /** `strings.Join(ts, " ")`: the first piece, then a space before each
      further piece; an empty list joins to the empty string. */
  function Join(ts: seq<Bytes>): Bytes
  {
    if |ts| == 0 then [] else ts[0] + SpaceEach(ts[1..])
  }

  /** Each piece preceded by a space, one after the other. */
  function SpaceEach(ts: seq<Bytes>): Bytes
  {
    if |ts| == 0 then [] else [Space] + ts[0] + SpaceEach(ts[1..])
  }

  // ---------------------------------------------------------------------------
  // Lemmas
  // ---------------------------------------------------------------------------

  /** A string without upper-case letters is its own lower-case form. */
  lemma ToLowerFixesLower(s: Bytes)
    requires forall i :: 0 <= i < |s| ==> !IsUpper(s[i])
    ensures ToLower(s) == s
  {
  }

  /** Joining at least two pieces puts the first one, a space, and the join
      of the rest one after the other. */
  lemma JoinUnfold(head: Bytes, rest: seq<Bytes>)
    requires |rest| >= 1
    ensures Join([head] + rest) == head + [Space] + Join(rest)
  {
    assert ([head] + rest)[1..] == rest;
    assert SpaceEach(rest) == [Space] + Join(rest);
  }

  /** Putting a byte other than the separator in front of a string glues it
      onto the first piece. */
  lemma JoinConsFirst(c: byte, ts: seq<Bytes>)
    requires |ts| >= 1
    ensures Join([[c] + ts[0]] + ts[1..]) == [c] + Join(ts)
  {
    var ts' := [[c] + ts[0]] + ts[1..];
    assert ts'[1..] == ts[1..];
  }

  /** Joining the pieces of a split gives back the string. */
  lemma {:induction false} JoinSplit(s: Bytes)
    ensures Join(Split(s)) == s
  {
    if |s| == 0 {
    } else {
      var rest := Split(s[1..]);
      JoinSplit(s[1..]);
      if s[0] == Space {
        JoinUnfold([], rest);
        assert s == [Space] + s[1..];
      } else {
        JoinConsFirst(s[0], rest);
        assert s == [s[0]] + s[1..];
      }
    }
  }

  /** A string without a space is a single piece. */
  lemma {:induction false} SplitNoSpace(a: Bytes)
    requires Space !in a
    ensures Split(a) == [a]
  {
    if |a| != 0 {
      SplitNoSpace(a[1..]);
      assert [a[0]] + a[1..] == a;
    }
  }

  /** Splitting `a + " " + b`, where `a` has no space, yields `a` followed by
      the pieces of `b`. */
  lemma {:induction false} SplitAfterPiece(a: Bytes, b: Bytes)
    requires Space !in a
    ensures Split(a + [Space] + b) == [a] + Split(b)
  {
    if |a| == 0 {
      assert a + [Space] + b == [Space] + b;
      assert ([Space] + b)[1..] == b;
    } else {
      var s := a + [Space] + b;
      assert s[1..] == a[1..] + [Space] + b;
      SplitAfterPiece(a[1..], b);
      assert [a[0]] + a[1..] == a;
    }
  }

  /** Splitting a join of space-free pieces gives the pieces back. */
  lemma {:induction false} SplitJoin(ts: seq<Bytes>)
    requires |ts| >= 1
    requires forall i :: 0 <= i < |ts| ==> Space !in ts[i]
    ensures Split(Join(ts)) == ts
  {
    if |ts| == 1 {
      assert ts[1..] == [];
      assert Join(ts) == ts[0] + SpaceEach([]);
      assert Join(ts) == ts[0];
      SplitNoSpace(ts[0]);
      assert ts == [ts[0]];
    } else {
      SplitJoin(ts[1..]);
      SplitAfterPiece(ts[0], Join(ts[1..]));
      JoinUnfold(ts[0], ts[1..]);
      assert [ts[0]] + ts[1..] == ts;
    }
  }

  /** If every piece of `us` is at most as long as the piece of `ts` in the
      same place, the join of `us` is at most as long as the join of `ts`. */
  lemma {:induction false} JoinLengthMonotone(ts: seq<Bytes>, us: seq<Bytes>)
    requires |ts| == |us|
    requires forall i :: 0 <= i < |ts| ==> |us[i]| <= |ts[i]|
    ensures |Join(us)| <= |Join(ts)|
  {
    if |ts| > 1 {
      JoinLengthMonotone(ts[1..], us[1..]);
      JoinUnfold(ts[0], ts[1..]);
      JoinUnfold(us[0], us[1..]);
      assert [ts[0]] + ts[1..] == ts;
      assert [us[0]] + us[1..] == us;
    }
  }
}
