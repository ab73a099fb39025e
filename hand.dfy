/**
 * The hand evaluator shared by both game engines (`calculate_points` in
 * src/game_logic.c and Black_Jack/src/game_logic.c).
 *
 * The C loop first counts every Ace as 11 and every card of rank 10 or
 * more as 10, then takes 10 off per Ace while the total is above 21.
 * `Points` is that result; `BestTotal` is the independent closed form
 * (Aces as 1, plus 10 once when some Ace can be counted high without
 * busting), and the lemmas below connect the two.
 */
module Hand {

  /** A card rank: 1 is the Ace, 11 to 13 are the face cards. */
  predicate IsRank(c: int)
  {
    1 <= c <= 13
  }

  /** Every card of the hand has a value of at least 1 (true of all ranks). */
  predicate Positive(h: seq<int>)
  {
    forall i :: 0 <= i < |h| ==> h[i] >= 1
  }

  /** Value in the first pass: Ace 11, 10 and above 10, otherwise the value itself. */
  function SoftValue(c: int): int
  {
    if c == 1 then 11 else if c >= 10 then 10 else c
  }

  /** Value with the Ace counted low. */
  function HardValue(c: int): int
  {
    if c == 1 then 1 else if c >= 10 then 10 else c
  }

  function SoftTotal(h: seq<int>): int
  {
    if h == [] then 0 else SoftTotal(h[..|h| - 1]) + SoftValue(h[|h| - 1])
  }

  function HardTotal(h: seq<int>): int
  {
    if h == [] then 0 else HardTotal(h[..|h| - 1]) + HardValue(h[|h| - 1])
  }

  function AceCount(h: seq<int>): nat
  {
    if h == [] then 0 else AceCount(h[..|h| - 1]) + (if h[|h| - 1] == 1 then 1 else 0)
  }

  /** The second loop: lower one Ace at a time while the total is a bust. */
  function Soften(points: int, aces: int): int
    decreases aces
  {
    if points > 21 && aces > 0 then Soften(points - 10, aces - 1) else points
  }

  /** The value `calculate_points` returns for a hand. */
  function Points(h: seq<int>): int
  {
    Soften(SoftTotal(h), AceCount(h))
  }

  /** Closed form: the hard total, plus 10 when there is an Ace and that keeps the hand at 21 or less. */
  function BestTotal(h: seq<int>): int
  {
    if AceCount(h) > 0 && HardTotal(h) + 10 <= 21 then HardTotal(h) + 10 else HardTotal(h)
  }

  /** The three totals grow by one card's worth when a card is appended. */
  lemma TotalsAppend(h: seq<int>, c: int)
    ensures SoftTotal(h + [c]) == SoftTotal(h) + SoftValue(c)
    ensures HardTotal(h + [c]) == HardTotal(h) + HardValue(c)
    ensures AceCount(h + [c]) == AceCount(h) + (if c == 1 then 1 else 0)
  {
    assert (h + [c])[..|h|] == h;
  }

  lemma {:induction false} SoftIsHardPlusTen(h: seq<int>)
    ensures SoftTotal(h) == HardTotal(h) + 10 * AceCount(h)
  {
    if h != [] {
      SoftIsHardPlusTen(h[..|h| - 1]);
    }
  }

  lemma {:induction false} HardCoversAces(h: seq<int>)
    requires Positive(h)
    ensures HardTotal(h) >= AceCount(h)
  {
    if h != [] {
      HardCoversAces(h[..|h| - 1]);
    }
  }

  /** Softening `hard + 10 * aces` leaves at most one Ace high, given each Ace adds at least 1 to `hard`. */
  lemma {:induction false} SoftenClosedForm(hard: int, aces: nat)
    requires hard >= aces
    ensures Soften(hard + 10 * aces, aces) == if aces > 0 && hard + 10 <= 21 then hard + 10 else hard
  {
    if aces > 0 && hard + 10 * aces > 21 {
      SoftenClosedForm(hard, aces - 1);
    }
  }

  /** On hands of real cards the loop's result is the closed form. */
  lemma PointsIsBestTotal(h: seq<int>)
    requires Positive(h)
    ensures Points(h) == BestTotal(h)
  {
    SoftIsHardPlusTen(h);
    HardCoversAces(h);
    SoftenClosedForm(HardTotal(h), AceCount(h));
  }

  /** The result is the best of the totals reachable by counting some Aces as 11:
      the largest one of at most 21 when the hard total is at most 21, and the hard
      total (the smallest bust) otherwise. */
  lemma PointsIsBestAchievable(h: seq<int>)
    requires Positive(h)
    ensures exists k :: 0 <= k <= AceCount(h) && Points(h) == HardTotal(h) + 10 * k
    ensures HardTotal(h) <= 21 ==> Points(h) <= 21
    ensures forall k :: 0 <= k <= AceCount(h) && HardTotal(h) + 10 * k <= 21 ==> HardTotal(h) + 10 * k <= Points(h)
    ensures HardTotal(h) > 21 ==> Points(h) == HardTotal(h)
  {
    PointsIsBestTotal(h);
    HardCoversAces(h);
    var hard, aces := HardTotal(h), AceCount(h);
    if aces > 0 && hard + 10 <= 21 {
      assert Points(h) == hard + 10 * 1;
    } else {
      assert Points(h) == hard + 10 * 0;
      forall k | 0 <= k <= aces && hard + 10 * k <= 21
        ensures hard + 10 * k <= Points(h)
      {
        assert k == 0;
      }
    }
  }

  /** A hand busts exactly when its hard total does. */
  lemma PointsBustIff(h: seq<int>)
    requires Positive(h)
    ensures Points(h) > 21 <==> HardTotal(h) > 21
  {
    PointsIsBestTotal(h);
  }

  /** No two-card deal is a bust: the best is Ace and a ten-valued card, 21. */
  lemma TwoCardsNeverBust(a: int, b: int)
    requires IsRank(a) && IsRank(b)
    ensures Points([a, b]) <= 21
  {
    var h := [a, b];
    TotalsAppend([], a);
    TotalsAppend([a], b);
    assert [] + [a] == [a] && [a] + [b] == h;
    PointsIsBestTotal(h);
  }

  /** The empty hand; two Aces and a 9; a bust with no Ace. */
  lemma Examples()
    ensures Points([]) == 0
    ensures Points([1, 1, 9]) == 21
    ensures Points([10, 10, 5]) == 25
  {
    PointsIsBestTotal([1, 1, 9]);
    PointsIsBestTotal([10, 10, 5]);
    assert [1, 1, 9][..2] == [1, 1] && [1, 1][..1] == [1] && [1][..0] == [];
    assert [10, 10, 5][..2] == [10, 10] && [10, 10][..1] == [10] && [10][..0] == [];
  }
}
