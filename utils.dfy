/** Challenge results and invite codes (core/src/utils/index.ts). The random
    draws of `generateInviteCode` are an input: one alphabet position per
    character. */
module Utils {
  import opened Wrappers
  import opened Collections
  import opened Types

  // ---------------------------------------------------------------------
  // Invite codes
  // ---------------------------------------------------------------------

  /** The code alphabet: upper-case letters and digits without 0, O, 1 and I. */
  const INVITE_ALPHABET: string := "ABCDEFGHJKLMNPQRSTUVWXYZ23456789"

  const INVITE_CODE_LENGTH: nat := 6

  /** The alphabet has 32 distinct characters, none of them a confusable one. */
  lemma InviteAlphabetShape()
    ensures |INVITE_ALPHABET| == 32
    ensures NoDuplicates(INVITE_ALPHABET)
    ensures '0' !in INVITE_ALPHABET && 'O' !in INVITE_ALPHABET
    ensures '1' !in INVITE_ALPHABET && 'I' !in INVITE_ALPHABET
  {
    // 24 ascending letters followed by 8 ascending digits, which sort below every letter.
    AlphabetLetters();
    AlphabetDigits();
  }

  lemma AlphabetLetters()
    ensures |INVITE_ALPHABET| == 32
    ensures forall i, j :: 0 <= i < j < 24 ==> INVITE_ALPHABET[i] < INVITE_ALPHABET[j]
    ensures forall i :: 0 <= i < 24 ==> 'A' <= INVITE_ALPHABET[i] <= 'Z'
    ensures forall i :: 0 <= i < 24 ==> INVITE_ALPHABET[i] != 'I' && INVITE_ALPHABET[i] != 'O'
  {
    LettersAscending();
    LettersUpperCase();
    LettersWithoutIAndO();
  }

  lemma LettersAscending()
    ensures |INVITE_ALPHABET| == 32
    ensures forall i, j :: 0 <= i < j < 24 ==> INVITE_ALPHABET[i] < INVITE_ALPHABET[j]
  {
    var a := INVITE_ALPHABET;
    assert forall i :: 0 <= i < 23 ==> a[i] < a[i + 1];
    Ascending(a, 0, 24);
  }

  lemma LettersUpperCase()
    ensures |INVITE_ALPHABET| == 32
    ensures forall i :: 0 <= i < 24 ==> 'A' <= INVITE_ALPHABET[i] <= 'Z'
  {
  }

  /** 'I' and 'O' fall between two neighbouring letters of the sorted prefix. */
  lemma LettersWithoutIAndO()
    ensures |INVITE_ALPHABET| == 32
    ensures forall i :: 0 <= i < 24 ==> INVITE_ALPHABET[i] != 'I' && INVITE_ALPHABET[i] != 'O'
  {
    var a := INVITE_ALPHABET;
    LettersAscending();
    assert a[7] == 'H' && a[8] == 'J' && a[12] == 'N' && a[13] == 'P';
    forall i | 0 <= i < 24
      ensures a[i] != 'I' && a[i] != 'O'
    {
      if i < 7 { assert a[i] < a[7]; }
      if 8 < i < 12 { assert a[8] < a[i] < a[12]; }
      if 13 < i { assert a[13] < a[i]; }
    }
  }

  lemma AlphabetDigits()
    ensures |INVITE_ALPHABET| == 32
    ensures forall i, j :: 24 <= i < j < 32 ==> INVITE_ALPHABET[i] < INVITE_ALPHABET[j]
    ensures forall i :: 24 <= i < 32 ==> '2' <= INVITE_ALPHABET[i] <= '9'
  {
    var a := INVITE_ALPHABET;
    assert forall i :: 24 <= i < 31 ==> a[i] < a[i + 1];
    assert forall i :: 24 <= i < 32 ==> '2' <= a[i] <= '9';
    Ascending(a, 24, 32);
  }

  /** Characters ascending from each one to the next ascend throughout. */
  lemma Ascending(s: string, lo: nat, hi: nat)
    requires lo <= hi <= |s|
    requires forall i :: lo <= i < hi - 1 ==> s[i] < s[i + 1]
    ensures forall i, j :: lo <= i < j < hi ==> s[i] < s[j]
  {
    forall i, j | lo <= i < j < hi
      ensures s[i] < s[j]
    {
      AscendingFrom(s, lo, hi, i, j);
    }
  }

  lemma {:induction false} AscendingFrom(s: string, lo: nat, hi: nat, i: nat, j: nat)
    requires lo <= i < j < hi <= |s|
    requires forall k :: lo <= k < hi - 1 ==> s[k] < s[k + 1]
    ensures s[i] < s[j]
    decreases j - i
  {
    if i + 1 < j {
      AscendingFrom(s, lo, hi, i + 1, j);
    }
  }

  /** `Math.floor(Math.random() * chars.length)` always lies in the alphabet. */
  predicate ValidDraws(draws: seq<nat>) {
    |draws| == INVITE_CODE_LENGTH && forall i :: 0 <= i < |draws| ==> draws[i] < |INVITE_ALPHABET|
  }

  /** A string the generator can produce: six alphabet characters. */
  predicate IsInviteCode(code: string) {
    |code| == INVITE_CODE_LENGTH && forall i :: 0 <= i < |code| ==> code[i] in INVITE_ALPHABET
  }

  /** `generateInviteCode()` with the six random positions given as `draws`:
      the `for` loop appending `chars.charAt(draw)` to `code`. */
  method GenerateInviteCode(draws: seq<nat>) returns (code: string)
    requires ValidDraws(draws)
    ensures IsInviteCode(code)
    ensures forall i :: 0 <= i < |code| ==> code[i] == INVITE_ALPHABET[draws[i]]
  {
    code := "";
    for i := 0 to INVITE_CODE_LENGTH
      invariant |code| == i
      invariant forall k :: 0 <= k < i ==> code[k] == INVITE_ALPHABET[draws[k]]
    {
      code := code + [INVITE_ALPHABET[draws[i]]];
    }
  }

  /** Different draws give different codes, so each of the 32^6 draw
      sequences yields its own code. */
  lemma DrawsDetermineCode(d1: seq<nat>, d2: seq<nat>)
    requires ValidDraws(d1) && ValidDraws(d2)
    requires forall i :: 0 <= i < INVITE_CODE_LENGTH ==> INVITE_ALPHABET[d1[i]] == INVITE_ALPHABET[d2[i]]
    ensures d1 == d2
  {
    InviteAlphabetShape();
  }

  /** Every six-character string over the alphabet is produced by some draws. */
  lemma EveryCodeIsDrawn(code: string)
    requires IsInviteCode(code)
    ensures exists draws :: ValidDraws(draws) && forall i :: 0 <= i < |code| ==> code[i] == INVITE_ALPHABET[draws[i]]
  {
    var draws := seq(|code|, i requires 0 <= i < |code| => PositionOf(code[i]));
    assert ValidDraws(draws);
  }

  /** The position of an alphabet character. */
  function PositionOf(c: char): (k: nat)
    requires c in INVITE_ALPHABET
    ensures k < |INVITE_ALPHABET| && INVITE_ALPHABET[k] == c
  {
    PositionFrom(INVITE_ALPHABET, c, 0)
  }

  function PositionFrom(s: string, c: char, from: nat): (k: nat)
    requires from <= |s| && c in s[from..]
    ensures from <= k < |s| && s[k] == c
    decreases |s| - from
  {
    if s[from] == c then from
    else
      assert s[from..] == [s[from]] + s[from + 1..];
      PositionFrom(s, c, from + 1)
  }

  // ---------------------------------------------------------------------
  // Challenge results
  // ---------------------------------------------------------------------

  /** `'challenger' | 'opponent' | 'tie'` */
  datatype ChallengeResult = ChallengerWins | OpponentWins | Tie

  /** `getChallengeWinner(challenge)`: no result before completion, else the
      side with the higher score, or a tie. */
  function GetChallengeWinner(challenge: Challenge): (r: Option<ChallengeResult>)
    ensures r.None? <==> challenge.status != Completed
    ensures r == Some(ChallengerWins) <==> challenge.status == Completed && challenge.challengerScore > challenge.opponentScore
    ensures r == Some(OpponentWins) <==> challenge.status == Completed && challenge.opponentScore > challenge.challengerScore
    ensures r == Some(Tie) <==> challenge.status == Completed && challenge.challengerScore == challenge.opponentScore
  {
    if challenge.status != Completed then None
    else if challenge.challengerScore > challenge.opponentScore then Some(ChallengerWins)
    else if challenge.opponentScore > challenge.challengerScore then Some(OpponentWins)
    else Some(Tie)
  }

  function SwapSides(r: ChallengeResult): ChallengeResult {
    match r
    case ChallengerWins => OpponentWins
    case OpponentWins => ChallengerWins
    case Tie => Tie
  }

  /** The challenge seen from the other side: players and scores swapped. */
  function Swapped(c: Challenge): Challenge {
    c.(challengerId := c.opponentId, opponentId := c.challengerId,
       challengerScore := c.opponentScore, opponentScore := c.challengerScore)
  }

  /** The rule is symmetric: swapping the sides swaps the winner and keeps a tie. */
  lemma WinnerOfSwapped(c: Challenge)
    ensures GetChallengeWinner(Swapped(c)).None? <==> GetChallengeWinner(c).None?
    ensures GetChallengeWinner(c).Some? ==>
      GetChallengeWinner(Swapped(c)) == Some(SwapSides(GetChallengeWinner(c).value))
  {
  }

  /** Raising the challenger's score never turns a challenger win into
      something else, and lowering it never turns an opponent win around. */
  lemma WinnerMonotone(c: Challenge, more: nat)
    requires more >= c.challengerScore
    ensures GetChallengeWinner(c) == Some(ChallengerWins) ==>
      GetChallengeWinner(c.(challengerScore := more)) == Some(ChallengerWins)
    ensures GetChallengeWinner(c.(challengerScore := more)) == Some(OpponentWins) ==>
      GetChallengeWinner(c) == Some(OpponentWins)
  {
  }
}
