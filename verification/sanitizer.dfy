/** The word-level redaction both chirp endpoints share (`getCleanedBody`,
    written out twice in the Go code and defined once here), together with
    the constants the two endpoints declare: the 140-byte limit and the
    three-word denylist. */
module Sanitizer {
  import opened GoStrings

  /** Longest accepted chirp body, in bytes. */
  const MaxChirpLength: nat := 140

  /** "****", the literal a bad word is replaced by. */
  const Stars: Bytes := [42, 42, 42, 42]

  /** "kerfuffle" */
  const Kerfuffle: Bytes := [107, 101, 114, 102, 117, 102, 102, 108, 101]
  /** "sharbert" */
  const Sharbert: Bytes := [115, 104, 97, 114, 98, 101, 114, 116]
  /** "fornax" */
  const Fornax: Bytes := [102, 111, 114, 110, 97, 120]

  /** The bad words, all lower-case. */
  const Denylist: set<Bytes> := {Kerfuffle, Sharbert, Fornax}

  /** A token is bad when its lower-case form is one of the bad words; the
      whole token must match, a token that merely contains a bad word is not bad. */
  predicate IsBad(token: Bytes, badWords: set<Bytes>)
  {
    ToLower(token) in badWords
  }

  /** No token of the body is bad. */
  predicate NoBadToken(body: Bytes, badWords: set<Bytes>)
  {
    forall i :: 0 <= i < |Split(body)| ==> !IsBad(Split(body)[i], badWords)
  }

  /** What one token becomes: the stars if it is bad, itself otherwise. */
  function RedactToken(token: Bytes, badWords: set<Bytes>): Bytes
  {
    if IsBad(token, badWords) then Stars else token
  }

  /** `getCleanedBody(body, badWords)`: split on single spaces, replace each
      bad token by the stars, join with single spaces. The result has exactly
      as many space-separated tokens as the body; a bad token becomes the
      stars in the same position and every other token stays byte for byte
      as it was, original casing included. In particular the spaces are
      exactly as many as in the body. */
  function GetCleanedBody(body: Bytes, badWords: set<Bytes>): (r: Bytes)
    ensures |Split(r)| == |Split(body)|
    ensures Count(r, Space) == Count(body, Space)
    ensures forall i :: 0 <= i < |Split(body)| && IsBad(Split(body)[i], badWords) ==>
      Split(r)[i] == Stars
    ensures forall i :: 0 <= i < |Split(body)| && !IsBad(Split(body)[i], badWords) ==>
      Split(r)[i] == Split(body)[i]
  {
    var words := Split(body);
    var cleaned := seq(|words|, i requires 0 <= i < |words| => RedactToken(words[i], badWords));
    StarsHaveNoSpace();
    SplitJoin(cleaned);
    Join(cleaned)
  }

  /** The Go loop of `getCleanedBody` as written: split, overwrite the bad
      words of the slice in place, join. It computes `GetCleanedBody`. */
  method CleanBody(body: Bytes, badWords: set<Bytes>) returns (cleaned: Bytes)
    ensures cleaned == GetCleanedBody(body, badWords)
  {
    var words := Split(body);
    var i := 0;
    while i < |words|
      invariant 0 <= i <= |words|
      invariant |words| == |Split(body)|
      invariant forall j :: 0 <= j < i ==> words[j] == RedactToken(Split(body)[j], badWords)
      invariant forall j :: i <= j < |words| ==> words[j] == Split(body)[j]
    {
      var lowered := ToLower(words[i]);
      if lowered in badWords {
        words := words[i := Stars];
      }
      i := i + 1;
    }
    StarsHaveNoSpace();
    SplitJoin(words);
    JoinSplit(GetCleanedBody(body, badWords));
    assert Split(GetCleanedBody(body, badWords)) == words;
    cleaned := Join(words);
  }

  // ---------------------------------------------------------------------------
  // Lemmas
  // ---------------------------------------------------------------------------

  lemma StarsHaveNoSpace()
    ensures |Stars| == 4
    ensures Space !in Stars
    ensures ToLower(Stars) == Stars
  {
    ToLowerFixesLower(Stars);
  }

  /** The stars are not a bad word, neither is the empty token, and every
      bad word is at least as long as the stars, so a replacement never
      lengthens a token. */
  lemma DenylistFacts()
    ensures Stars !in Denylist
    ensures [] !in Denylist
    ensures forall w :: w in Denylist ==> |w| >= |Stars|
  {
  }

  /** The bad words are lower-case, so each one is matched by itself. */
  lemma DenylistIsLowerCase()
    ensures forall w :: w in Denylist ==> ToLower(w) == w
  {
    forall w | w in Denylist
      ensures ToLower(w) == w
    {
      if w == Kerfuffle {
        ToLowerFixesLower(Kerfuffle);
      } else if w == Sharbert {
        ToLowerFixesLower(Sharbert);
      } else {
        ToLowerFixesLower(Fornax);
      }
    }
  }

  /** The token-wise contract of `GetCleanedBody` determines its output
      completely: any string whose tokens are the redacted tokens of the body,
      in the same places, is the cleaned body. */
  lemma CleanedDeterminedByTokens(body: Bytes, badWords: set<Bytes>, r: Bytes)
    requires |Split(r)| == |Split(body)|
    requires forall i :: 0 <= i < |Split(body)| ==> Split(r)[i] == RedactToken(Split(body)[i], badWords)
    ensures r == GetCleanedBody(body, badWords)
  {
    var cleaned := GetCleanedBody(body, badWords);
    JoinSplit(r);
    JoinSplit(cleaned);
    assert Split(r) == Split(cleaned);
  }

  /** A body without spaces is a single token, cleaned on its own. */
  lemma CleanSingleToken(token: Bytes, badWords: set<Bytes>)
    requires Space !in token
    ensures GetCleanedBody(token, badWords) == RedactToken(token, badWords)
  {
    SplitNoSpace(token);
    StarsHaveNoSpace();
    SplitNoSpace(RedactToken(token, badWords));
    JoinSplit(GetCleanedBody(token, badWords));
  }

  /** If no token is bad the output is the input, whatever the bad words. */
  lemma NoBadTokenUnchanged(body: Bytes, badWords: set<Bytes>)
    requires NoBadToken(body, badWords)
    ensures GetCleanedBody(body, badWords) == body
  {
    var r := GetCleanedBody(body, badWords);
    JoinSplit(r);
    JoinSplit(body);
    assert Split(r) == Split(body);
  }

  /** When the stars themselves are not a bad word, an output equal to the
      input means that no token was bad: a bad token would have turned into
      the stars, and the stars are not bad. */
  lemma UnchangedOnlyIfNoBadToken(body: Bytes, badWords: set<Bytes>, i: int)
    requires Stars !in badWords
    requires GetCleanedBody(body, badWords) == body
    requires 0 <= i < |Split(body)|
    ensures !IsBad(Split(body)[i], badWords)
  {
    StarsHaveNoSpace();
    if IsBad(Split(body)[i], badWords) {
      assert false;
    }
  }

  /** When the stars themselves are not a bad word, as for the denylist, the
      output equals the input exactly when no token is bad. */
  lemma UnchangedIffNoBadToken(body: Bytes, badWords: set<Bytes>)
    requires Stars !in badWords
    ensures GetCleanedBody(body, badWords) == body <==> NoBadToken(body, badWords)
  {
    if GetCleanedBody(body, badWords) == body {
      forall i | 0 <= i < |Split(body)|
        ensures !IsBad(Split(body)[i], badWords)
      {
        UnchangedOnlyIfNoBadToken(body, badWords, i);
      }
    }
    if NoBadToken(body, badWords) {
      NoBadTokenUnchanged(body, badWords);
    }
  }

  /** The empty body has one empty token, which is not a bad word of the
      denylist, so it cleans to the empty body. */
  lemma EmptyBodyStaysEmpty()
    ensures GetCleanedBody([], Denylist) == []
  {
    DenylistFacts();
    UnchangedIffNoBadToken([], Denylist);
  }

  /** Cleaning twice is cleaning once, provided the stars are not a bad word
      (they are not in the denylist). */
  lemma {:induction false} CleanIdempotent(body: Bytes, badWords: set<Bytes>)
    requires Stars !in badWords
    ensures GetCleanedBody(GetCleanedBody(body, badWords), badWords) == GetCleanedBody(body, badWords)
  {
    var once := GetCleanedBody(body, badWords);
    var twice := GetCleanedBody(once, badWords);
    StarsHaveNoSpace();
    forall i | 0 <= i < |Split(once)|
      ensures !IsBad(Split(once)[i], badWords)
    {
      if IsBad(Split(body)[i], badWords) {
        assert Split(once)[i] == Stars;
      }
    }
    UnchangedIffNoBadToken(once, badWords);
  }

  /** Cleaning never lengthens a body when every bad word is at least as long
      as the stars (lower-casing keeps the length, so a bad token is as long
      as the word it matches). */
  lemma CleanedNotLonger(body: Bytes, badWords: set<Bytes>)
    requires forall w :: w in badWords ==> |w| >= |Stars|
    ensures |GetCleanedBody(body, badWords)| <= |body|
  {
    var ts := Split(body);
    var r := GetCleanedBody(body, badWords);
    forall i | 0 <= i < |ts|
      ensures |Split(r)[i]| <= |ts[i]|
    {
      if IsBad(ts[i], badWords) {
        assert |ToLower(ts[i])| == |ts[i]|;
      }
    }
    JoinLengthMonotone(ts, Split(r));
    JoinSplit(body);
    JoinSplit(r);
  }
}
