/** Worked cases of the sanitiser on concrete bodies: redaction of a whole
    word, case-insensitive matching, no partial matches, preserved spacing,
    and the 140/141-byte boundary. */
module SanitizerCases {
  import opened Wrappers
  import opened GoStrings
  import opened Sanitizer
  import opened ChirpsCreate

  /** "is" */
  const Is: Bytes := [105, 115]
  /** "bad" */
  const Bad: Bytes := [98, 97, 100]
  /** "KeRfUfFlE" */
  const KerfuffleMixedCase: Bytes := [75, 101, 82, 102, 85, 102, 70, 108, 69]
  /** "kerfuffled" */
  const Kerfuffled: Bytes := [107, 101, 114, 102, 117, 102, 102, 108, 101, 100]

  /** Three pieces joined with single spaces are the pieces with a space
      byte (32) between each two. */
  lemma JoinThree(a: Bytes, b: Bytes, c: Bytes)
    ensures Join([a, b, c]) == a + [32] + b + [32] + c
  {
    JoinUnfold(b, [c]);
    JoinUnfold(a, [b, c]);
    assert [a] + [b, c] == [a, b, c];
    assert [b] + [c] == [b, c];
    assert Join([c]) == c + SpaceEach([]);
  }

  lemma IsAndBadAreClean()
    ensures !IsBad(Is, Denylist) && !IsBad(Bad, Denylist)
  {
    ToLowerFixesLower(Is);
    ToLowerFixesLower(Bad);
  }

  lemma KerfuffleIsBad()
    ensures IsBad(Kerfuffle, Denylist)
  {
    DenylistIsLowerCase();
  }

  lemma CleanKerfuffleIsBad()
    ensures GetCleanedBody(Kerfuffle + [32] + Is + [32] + Bad, Denylist) == Stars + [32] + Is + [32] + Bad
  {
    var ts := [Kerfuffle, Is, Bad];
    var us := [Stars, Is, Bad];
    JoinThree(Kerfuffle, Is, Bad);
    JoinThree(Stars, Is, Bad);
    StarsHaveNoSpace();
    SplitJoin(ts);
    SplitJoin(us);
    IsAndBadAreClean();
    KerfuffleIsBad();
    CleanedDeterminedByTokens(Join(ts), Denylist, Join(us));
  }

  /** "kerfuffle is bad" becomes "**** is bad". */
  lemma RedactsWholeWord()
    ensures ValidateChirp(Kerfuffle + [32] + Is + [32] + Bad) == Validated(Stars + [32] + Is + [32] + Bad, None)
  {
    CleanKerfuffleIsBad();
  }

  lemma MixedCaseLowersToKerfuffle()
    ensures ToLower(KerfuffleMixedCase) == Kerfuffle
  {
  }

  /** "KeRfUfFlE" becomes "****": matching ignores case. */
  lemma RedactsAnyCasing()
    ensures ValidateChirp(KerfuffleMixedCase) == Validated(Stars, None)
  {
    MixedCaseLowersToKerfuffle();
    CleanSingleToken(KerfuffleMixedCase, Denylist);
  }

  lemma KerfuffledIsClean()
    ensures !IsBad(Kerfuffled, Denylist)
  {
    ToLowerFixesLower(Kerfuffled);
  }

  /** "kerfuffled" stays as it is: a token that only contains a bad word is
      not redacted. */
  lemma KeepsPartialMatch()
    ensures ValidateChirp(Kerfuffled) == Validated(Kerfuffled, None)
  {
    KerfuffledIsClean();
    CleanSingleToken(Kerfuffled, Denylist);
  }

  lemma CleanTwoSpaces()
    ensures GetCleanedBody([97, 32, 32, 98], Denylist) == [97, 32, 32, 98]
  {
    var ts: seq<Bytes> := [[97], [], [98]];
    JoinThree([97], [], [98]);
    assert Join(ts) == [97, 32, 32, 98];
    SplitJoin(ts);
    ToLowerFixesLower([97]);
    ToLowerFixesLower([98]);
    DenylistFacts();
    NoBadTokenUnchanged(Join(ts), Denylist);
  }

  /** "a  b", with two spaces, stays "a  b": the empty token between the
      spaces survives. */
  lemma KeepsRepeatedSpaces()
    ensures ValidateChirp([97, 32, 32, 98]) == Validated([97, 32, 32, 98], None)
  {
    CleanTwoSpaces();
  }

  /** A body of exactly 140 bytes is accepted; one of 141 bytes is refused. */
  lemma LengthBoundary(body: Bytes)
    ensures |body| == 140 ==> ValidateChirp(body).err == None
    ensures |body| == 141 ==> ValidateChirp(body) == Validated([], Some("Chirp is too long"))
  {
  }
}
