/**
  What the non-overlapping scan for Aadhaar-like numbers can and cannot miss
  (`containsAadhaarLikeNumber` in `apps/api/src/lib/pii-guards.ts`).
 */
module AadhaarOverlap {
  import opened TextOrder
  import opened Verhoeff
  import opened Patterns
  import opened AadhaarScan
  import opened AadhaarShape

  // ---- The scan, by standalone numbers -------------------------------------------------------

  /** At a standalone number the scan takes it and goes on behind it, elsewhere it moves on by one. */
  lemma ScanUnfolds(s: string, i: nat)
    ensures i > |s| ==> ScanTs(s, i) == []
    ensures i <= |s| ==>
              ScanTs(s, i) == if Standalone(s, i) then [Captures(s, i)] + ScanTs(s, End(s, i)) else ScanTs(s, i + 1)
  {
    hide MatchesAt, AADHAAR_SHAPED, Standalone, GroupsAt, Captures;
    if i <= |s| { PatternMeans(s, i); }
  }

  /** The captures of every standalone number from `i` on, overlapping or not. */
  function Occurrences(s: string, i: nat): seq<seq<string>>
    decreases |s| + 1 - i
  {
    if i > |s| then []
    else (if Standalone(s, i) then [Captures(s, i)] else []) + Occurrences(s, i + 1)
  }

  ghost predicate NoOverlapFrom(s: string, i: nat) {
    forall a: nat, b: nat | i <= a < b && Standalone(s, a) && Standalone(s, b) :: End(s, a) <= b
  }

  lemma {:induction false} SkippedOccurrences(s: string, i: nat, e: nat)
    requires i <= e <= |s| + 1
    ensures |Occurrences(s, i)| >= |Occurrences(s, e)|
    ensures (forall b: nat | i <= b < e :: !Standalone(s, b)) ==> Occurrences(s, i) == Occurrences(s, e)
    ensures forall b: nat | i <= b < e && Standalone(s, b) :: |Occurrences(s, i)| > |Occurrences(s, e)|
    decreases e - i
  {
    hide Standalone, Captures, GroupsAt;
    if i < e { SkippedOccurrences(s, i + 1, e); }
  }

  lemma EndIsFarther(s: string, i: nat)
    requires Standalone(s, i)
    ensures i + 12 <= End(s, i) <= |s|
  {
  }

  lemma NoOverlapMovesOn(s: string, i: nat)
    ensures !Standalone(s, i) ==> (NoOverlapFrom(s, i) <==> NoOverlapFrom(s, i + 1))
    ensures Standalone(s, i) ==>
              (NoOverlapFrom(s, i) <==>
               NoOverlapFrom(s, End(s, i)) && forall b: nat | i < b < End(s, i) :: !Standalone(s, b))
  {
    forall a: nat | Standalone(s, a) ensures a < End(s, a) <= |s| { EndIsFarther(s, a); }
    hide Standalone, End;
  }

  lemma {:induction false} ScanListsOccurrencesFrom(s: string, i: nat)
    ensures |ScanTs(s, i)| <= |Occurrences(s, i)|
    ensures NoOverlapFrom(s, i) ==> ScanTs(s, i) == Occurrences(s, i)
    ensures !NoOverlapFrom(s, i) ==> |ScanTs(s, i)| < |Occurrences(s, i)|
    decreases |s| + 1 - i
  {
    hide ScanTs, Standalone, GroupsAt, Captures, End, NoOverlapFrom;
    NoOverlapMovesOn(s, i);
    ScanUnfolds(s, i);
    if i <= |s| {
      if !Standalone(s, i) {
        ScanListsOccurrencesFrom(s, i + 1);
      } else {
        EndIsFarther(s, i);
        ScanListsOccurrencesFrom(s, End(s, i));
        SkippedOccurrences(s, i + 1, End(s, i));
      }
    } else {
      NothingPastTheEnd(s, i);
    }
  }

  lemma NothingPastTheEnd(s: string, i: nat)
    requires i > |s|
    ensures NoOverlapFrom(s, i)
  {
    forall b: nat | Standalone(s, b) { EndIsFarther(s, b); }
  }

  /** The scan lists every standalone number exactly when no two of them overlap. */
  lemma ScanIsCompleteWithoutOverlap(s: string)
    ensures ScanTs(s, 0) == Occurrences(s, 0) <==> NoOverlapFrom(s, 0)
  {
    ScanListsOccurrencesFrom(s, 0);
  }

  // ---- What is flagged -----------------------------------------------------------------------

  /**
    A number that begins at `b` would be covered: one that is not covered itself begins before `b` and
    ends after it. This is about the characters of the text alone, not about any scan.
   */
  ghost predicate Hidden(s: string, b: nat)
    decreases b
  {
    exists a: nat | a < b :: Standalone(s, a) && !Hidden(s, a) && End(s, a) > b
  }

  ghost predicate Uncovered(s: string, b: nat) { Standalone(s, b) && !Hidden(s, b) }

  lemma CoveredInside(s: string, i: nat)
    requires Uncovered(s, i)
    ensures forall b: nat | i < b < End(s, i) :: !Uncovered(s, b)
  {
    hide Standalone, End;
  }

  /** From a position that nothing covers, the scan finds exactly the uncovered numbers. */
  lemma {:induction false} ScanFindsUncovered(s: string, i: nat, m: seq<string>)
    requires forall a: nat | a < i && Uncovered(s, a) :: End(s, a) <= i
    ensures m in ScanTs(s, i) <==> exists b: nat :: i <= b && Uncovered(s, b) && Captures(s, b) == m
    decreases |s| + 1 - i
  {
    forall a: nat | Standalone(s, a) ensures a < End(s, a) <= |s| { EndIsFarther(s, a); }
    hide ScanTs, Standalone, GroupsAt, Captures, End;
    ScanUnfolds(s, i);
    if i <= |s| {
      if Standalone(s, i) {
        assert Uncovered(s, i);
        CoveredInside(s, i);
        hide Hidden;
        ScanFindsUncovered(s, End(s, i), m);
      } else {
        hide Hidden;
        ScanFindsUncovered(s, i + 1, m);
      }
    }
  }

  /** A standalone number with a valid check digit. */
  predicate NumberAt(s: string, a: nat) { Standalone(s, a) && Valid(Number(s, a)) }

  /** There is one somewhere in `s`. */
  ghost predicate HasValidNumber(s: string) { exists a: nat :: NumberAt(s, a) }

  lemma JoinedIsNumber(s: string, a: nat)
    requires GroupsAt(s, a)
    ensures Joined(Captures(s, a)) == Number(s, a)
  {
  }

  /** A text is flagged exactly when it holds a valid number that no number before it covers. */
  lemma FlagIsExact(s: string)
    ensures Flagged(s) <==> exists b: nat :: NumberAt(s, b) && !Hidden(s, b)
  {
    forall m ensures m in ScanTs(s, 0) <==> exists b: nat :: Uncovered(s, b) && Captures(s, b) == m {
      ScanFindsUncovered(s, 0, m);
    }
    forall b: nat | GroupsAt(s, b) { JoinedIsNumber(s, b); }
    hide ScanTs, Valid, Hidden, GroupsAt, Captures, Number, Joined;
    if b: nat :| NumberAt(s, b) && !Hidden(s, b) { assert Uncovered(s, b); }
    if Flagged(s) {
      var m :| m in ScanTs(s, 0) && Valid(Joined(m));
      var b: nat :| Uncovered(s, b) && Captures(s, b) == m;
      assert NumberAt(s, b);
    }
  }

  /** A flag is never false, and it fails to come exactly where every valid number is covered. */
  lemma FlagIsRight(s: string)
    ensures Flagged(s) ==> HasValidNumber(s)
    ensures HasValidNumber(s) && !Flagged(s) <==>
            HasValidNumber(s) && forall b: nat | NumberAt(s, b) :: Hidden(s, b)
  {
    hide NumberAt, Hidden, Flagged;
    FlagIsExact(s);
  }

  // ---- A number that is seen, and one that is not --------------------------------------------

  const TWOS := "222222222222"

  lemma OneTwoMore(n: nat, i: nat)
    requires n < 12
    ensures Checksum(TWOS[..n + 1], i) == Compose(Permute(i, 2), Checksum(TWOS[..n], i + 1))
  {
    var s := TWOS[..n + 1];
    assert s[..n] == TWOS[..n] && s[n] == '2';
  }

  /** 222222222227 has the right check digit, so 222222222222 has not. */
  lemma TwosAndSeven()
    ensures Valid(TWOS[11 := '7']) && !Valid(TWOS)
  {
    TwosChecksum();
    var s := TWOS[11 := '7'];
    assert s[..11] == TWOS[..11];
    DetectsSingleErrors(s, 11, '2');
    assert s[11 := '2'] == TWOS;
  }

  lemma PermutedTwo(i: nat)
    ensures |P| == 8 && |P[i % 8]| == 10 && P[i % 8][2] == Permute(i, 2)
  {
    TableIsPower(i, 2);
  }

  lemma ThreeTwos()
    ensures Checksum(TWOS[..3], 9) == 6
  {
    hide Checksum, Permute;
    assert Checksum(TWOS[..0], 12) == 0 by { assert TWOS[..0] == ""; EmptyChecksum(12); }
    forall i: nat { PermutedTwo(i); }
    OneTwoMore(0, 11);
    OneTwoMore(1, 10);
    OneTwoMore(2, 9);
  }

  lemma SevenTwos()
    ensures Checksum(TWOS[..7], 5) == 6
  {
    hide Checksum, Permute;
    ThreeTwos();
    forall i: nat { PermutedTwo(i); }
    OneTwoMore(3, 8);
    OneTwoMore(4, 7);
    OneTwoMore(5, 6);
    OneTwoMore(6, 5);
  }

  lemma TwosChecksum()
    ensures Checksum(TWOS[..11], 1) == 7
  {
    hide Checksum, Permute;
    SevenTwos();
    forall i: nat { PermutedTwo(i); }
    OneTwoMore(7, 4);
    OneTwoMore(8, 3);
    OneTwoMore(9, 2);
    OneTwoMore(10, 1);
  }

  lemma EmptyChecksum(i: nat)
    ensures Checksum("", i) == 0
  {
  }

  lemma NothingHidesTheFirst(s: string)
    ensures !Hidden(s, 0)
  {
  }

  /** `dddd dddd dddd`, with spaces or hyphens, holds the three groups. */
  lemma SeparatedGroups(s: string, i: nat)
    requires DigitsAt(s, i, 4) && DigitsAt(s, i + 5, 4) && DigitsAt(s, i + 10, 4)
    requires (s[i + 4] == ' ' || s[i + 4] == '-') && (s[i + 9] == ' ' || s[i + 9] == '-')
    ensures Second(s, i) == i + 5 && Third(s, i) == i + 10 && End(s, i) == i + 14
    ensures '2' <= s[i] ==> GroupsAt(s, i) && Number(s, i) == s[i..i + 4] + s[i + 5..i + 9] + s[i + 10..i + 14]
  {
  }

  lemma DigitsOfSlice(s: string, i: nat)
    requires i + 4 <= |s| && AllDigits(s[i..i + 4])
    ensures DigitsAt(s, i, 4)
  {
    var four := s[i..i + 4];
    forall k | i <= k < i + 4 ensures '0' <= s[k] <= '9' { assert s[k] == four[k - i] && IsDigit(four[k - i]); }
  }

  lemma SeparatedIsStandalone(s: string, number: string)
    requires |s| == 14 && |number| == 12 && AllDigits(number) && '2' <= number[0]
    requires s[0..4] == number[..4] && s[5..9] == number[4..8] && s[10..14] == number[8..]
    requires (s[4] == ' ' || s[4] == '-') && (s[9] == ' ' || s[9] == '-')
    ensures Standalone(s, 0) && Number(s, 0) == number
  {
    hide AllDigits, DigitsAt, Gap, Number;
    SlicesAreDigits(number);
    DigitsOfSlice(s, 0);
    DigitsOfSlice(s, 5);
    DigitsOfSlice(s, 10);
    assert s[0] == s[0..4][0] == number[0];
    SeparatedGroups(s, 0);
    assert number[..4] + number[4..8] + number[8..] == number;
  }

  lemma SlicesAreDigits(number: string)
    requires |number| == 12 && AllDigits(number)
    ensures AllDigits(number[..4]) && AllDigits(number[4..8]) && AllDigits(number[8..])
  {
  }

  /** Twelve digits that start with 2 to 9 are found in groups too, with spaces or with hyphens. */
  lemma SeparatedNumberIsFlagged(number: string, separator: char)
    requires |number| == 12 && Valid(number) && '2' <= number[0] && (separator == ' ' || separator == '-')
    ensures Flagged(number[..4] + [separator] + number[4..8] + [separator] + number[8..])
  {
    assert AllDigits(number);
    hide Standalone, Number, GroupsAt, End, Valid, Flagged, Hidden, AllDigits;
    var s := number[..4] + [separator] + number[4..8] + [separator] + number[8..];
    assert s[0..4] == number[..4] && s[5..9] == number[4..8] && s[10..14] == number[8..];
    SeparatedIsStandalone(s, number);
    NothingHidesTheFirst(s);
    assert NumberAt(s, 0);
    FlagIsExact(s);
  }

  const MISSED := "2222 2222 2222 2227"

  /** Groups of twos with spaces between them, and a seven at the end. */
  predicate TwosAndASeven(s: string) {
    |s| == 19 && s[18] == '7' && forall k | 0 <= k < 18 :: s[k] == if k == 4 || k == 9 || k == 14 then ' ' else '2'
  }

  lemma TwoNumbers(s: string)
    requires TwosAndASeven(s)
    ensures Standalone(s, 0) && End(s, 0) == 14 && Number(s, 0) == TWOS
    ensures Standalone(s, 5) && End(s, 5) == 19 && Number(s, 5) == TWOS[11 := '7']
  {
    SeparatedGroups(s, 0);
    SeparatedGroups(s, 5);
    assert Number(s, 0) == TWOS;
    assert Number(s, 5) == TWOS[11 := '7'];
  }

  /** A valid number behind one more group of four digits goes unseen. */
  lemma OverlapHidesANumber()
    ensures !Flagged(MISSED) && HasValidNumber(MISSED)
  {
    assert TwosAndASeven(MISSED);
    TwoNumbers(MISSED);
    TwosAndSeven();
    NothingHidesTheFirst(MISSED);
    forall b: nat | NumberAt(MISSED, b) ensures Hidden(MISSED, b) {
      EndIsFarther(MISSED, b);
      assert b != 0 && b < 14;
    }
    assert NumberAt(MISSED, 5);
    hide Flagged, NumberAt, Hidden;
    FlagIsRight(MISSED);
  }
}
