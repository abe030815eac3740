/** Selection keys such as `b3`: the letter names the row, the digits the
    1-based column. */
module SelectionKey {
  import opened Outcomes
  import opened Decimal

  predicate IsLowerLetter(ch: char) {
    'a' <= ch <= 'z'
  }

  /** The key pattern `^[a-z][1-9]+$`: one lower-case letter, then one or more
      digits from 1 to 9. */
  predicate IsValidKey(key: string) {
    2 <= |key| && IsLowerLetter(key[0]) && AllNonZeroDigits(key[1..])
  }

  /** The states of a deterministic automaton for the key pattern, used as an
      independent reading of the pattern. */
  datatype MatchState = ExpectLetter | ExpectDigit | InDigits | Rejected

  function Step(st: MatchState, ch: char): MatchState {
    match st
    case ExpectLetter => if IsLowerLetter(ch) then ExpectDigit else Rejected
    case ExpectDigit => if IsNonZeroDigit(ch) then InDigits else Rejected
    case InDigits => if IsNonZeroDigit(ch) then InDigits else Rejected
    case Rejected => Rejected
  }

  function Run(st: MatchState, s: string): MatchState
    decreases |s|
  {
    if |s| == 0 then st else Run(Step(st, s[0]), s[1..])
  }

  /** The whole key is consumed and the automaton stops in its accepting state,
      as `Pattern.matches` demands of the whole input. */
  predicate PatternMatches(key: string) {
    Run(ExpectLetter, key) == InDigits
  }

  lemma {:induction false} RejectedIsFinal(s: string)
    ensures Run(Rejected, s) == Rejected
  {
    if |s| > 0 {
      RejectedIsFinal(s[1..]);
    }
  }

  lemma {:induction false} DigitsAccepted(s: string)
    ensures Run(InDigits, s) == InDigits <==> AllNonZeroDigits(s)
  {
    if |s| > 0 {
      DigitsAccepted(s[1..]);
      if IsNonZeroDigit(s[0]) {
        assert forall i :: 1 <= i < |s| ==> s[i] == s[1..][i - 1];
      } else {
        RejectedIsFinal(s[1..]);
      }
    }
  }

  lemma ExpectDigitAccepts(s: string)
    ensures Run(ExpectDigit, s) == InDigits <==> 1 <= |s| && AllNonZeroDigits(s)
  {
    if |s| > 0 {
      if IsNonZeroDigit(s[0]) {
        DigitsAccepted(s[1..]);
        assert forall i :: 1 <= i < |s| ==> s[i] == s[1..][i - 1];
      } else {
        RejectedIsFinal(s[1..]);
      }
    }
  }

  /** The automaton and the character-class reading of the pattern accept the
      same keys. */
  lemma PatternMatchesIffValid(key: string)
    ensures PatternMatches(key) <==> IsValidKey(key)
  {
    if |key| > 0 {
      if IsLowerLetter(key[0]) {
        ExpectDigitAccepts(key[1..]);
      } else {
        RejectedIsFinal(key[1..]);
      }
    }
  }

  /** A grid position as the key decodes it: row first, then column, both 0-based. */
  datatype Position = Position(row: nat, col: nat)

  /** The key naming a position: the row letter, then the 1-based column number. */
  function EncodeKey(p: Position): string
    requires p.row < 26
  {
    [('a' as int + p.row) as char] + DecimalString(p.col + 1)
  }

  /** Validation before decoding: an invalid key is rejected before anything is
      decoded; a valid key yields row `key[0] - 'a'` and column `digits - 1`,
      and naming that position again gives back the key itself. */
  function DecodeKey(key: string): (r: Result<Position>)
    ensures r.Ok? <==> IsValidKey(key)
    ensures r.Err? ==> r.error == InvalidFormat
    ensures r.Ok? ==> r.value.row < 26 && EncodeKey(r.value) == key
  {
    if !IsValidKey(key) then Err(InvalidFormat)
    else
      var digits := key[1..];
      assert AllDigits(digits);
      LeadingDigitPositive(digits);
      StringOfValue(digits);
      var p := Position(key[0] as int - 'a' as int, DecimalValue(digits) - 1);
      assert key == [key[0]] + digits;
      Ok(p)
  }

  /** The key written for a position is valid exactly when its column number has
      no zero digit. */
  lemma EncodedKeyValidIff(p: Position)
    requires p.row < 26
    ensures IsValidKey(EncodeKey(p)) <==> ZeroFree(p.col + 1)
  {
    assert EncodeKey(p)[1..] == DecimalString(p.col + 1);
  }

  /** Encoding then decoding gives back the position, whenever the column
      number has no zero digit. */
  lemma DecodeEncode(p: Position)
    requires p.row < 26 && ZeroFree(p.col + 1)
    ensures DecodeKey(EncodeKey(p)) == Ok(p)
  {
    var key := EncodeKey(p);
    EncodedKeyValidIff(p);
    assert key[1..] == DecimalString(p.col + 1);
    ValueOfString(p.col + 1);
  }
}
