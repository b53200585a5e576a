/**
 The photo-slide records of the letter view. One thousand cycles of
 eighteen left-side photos (numbers 1..18, ascending) are followed by one
 thousand cycles of eighteen right-side photos (numbers 36..19,
 descending). A record carries its position `index`, the `delay` after
 which its slide starts, and the photo number it shows.
 */
module Photos {
  import Decimal

  /** Cycles generated for the "infinite" loop. */
  const Cycles: nat := 1000
  /** Photos per side in one cycle. */
  const PerCycle: nat := 18
  /** Records per side. */
  const SideCount: nat := Cycles * PerCycle
  /** The highest photo number; the right side counts down from it. */
  const TopPhoto: nat := 2 * PerCycle
  /** Milliseconds between two slides on one side. */
  const SlideMs: nat := 4000

  datatype PhotoRecord = PhotoRecord(
    id: string,
    src: string,
    isLeft: bool,
    index: nat,
    delay: nat,
    displayNumber: nat,
    side: char,
    cycle: nat)

  function LeftId(photo: nat, cycle: nat): string {
    "left-" + Decimal.ToDecimal(photo) + "-cycle-" + Decimal.ToDecimal(cycle)
  }

  function RightId(photo: nat, cycle: nat): string {
    "right-" + Decimal.ToDecimal(photo) + "-cycle-" + Decimal.ToDecimal(cycle)
  }

  function ImageSrc(photo: nat): string {
    "/images/l" + Decimal.ToDecimal(photo) + ".jpg"
  }

  /** The left record pushed for `cycle` and loop counter `i` (1-based). */
  function LeftPhoto(cycle: nat, i: nat): PhotoRecord
    requires 1 <= i <= PerCycle
  {
    PhotoRecord(LeftId(i, cycle), ImageSrc(i), true,
                cycle * PerCycle + (i - 1), (cycle * PerCycle + (i - 1)) * SlideMs,
                i, 'L', cycle)
  }

  /** The right record pushed for `cycle` and loop counter `i` (0-based). */
  function RightPhoto(cycle: nat, i: nat): PhotoRecord
    requires i < PerCycle
  {
    var photo := TopPhoto - i;
    PhotoRecord(RightId(photo, cycle), ImageSrc(photo), false,
                cycle * PerCycle + PerCycle + i, (cycle * PerCycle + i) * SlideMs,
                photo, 'R', cycle)
  }

  /**
   Position `k` of the generated list, found directly from `k` rather than
   by running the loops: the first half is left records in cycle order,
   the second half right records in cycle order.
   */
  predicate IsPhotoData(photos: seq<PhotoRecord>) {
    && |photos| == 2 * SideCount
    && (forall k :: 0 <= k < SideCount ==>
          photos[k] == LeftPhoto(k / PerCycle, k % PerCycle + 1))
    && (forall k :: SideCount <= k < 2 * SideCount ==>
          photos[k] == RightPhoto((k - SideCount) / PerCycle, (k - SideCount) % PerCycle))
  }

  lemma Position(c: nat, i: nat)
    requires i < PerCycle
    ensures (c * PerCycle + i) / PerCycle == c
    ensures (c * PerCycle + i) % PerCycle == i
  {
  }

  /** The two nested loop pairs of the generator, concatenated. */
  method GeneratePhotoData() returns (photos: seq<PhotoRecord>)
    ensures IsPhotoData(photos)
    ensures forall k :: 0 <= k < SideCount ==> photos[k].isLeft && photos[k].side == 'L'
    ensures forall k :: SideCount <= k < |photos| ==> !photos[k].isLeft && photos[k].side == 'R'
  {
    var left: seq<PhotoRecord> := [];
    var cycle := 0;
    while cycle < Cycles
      invariant 0 <= cycle <= Cycles
      invariant |left| == cycle * PerCycle
      invariant forall k :: 0 <= k < |left| ==> left[k] == LeftPhoto(k / PerCycle, k % PerCycle + 1)
    {
      var i := 1;
      while i <= PerCycle
        invariant 1 <= i <= PerCycle + 1
        invariant |left| == cycle * PerCycle + (i - 1)
        invariant forall k :: 0 <= k < |left| ==> left[k] == LeftPhoto(k / PerCycle, k % PerCycle + 1)
      {
        Position(cycle, i - 1);
        left := left + [LeftPhoto(cycle, i)];
        i := i + 1;
      }
      cycle := cycle + 1;
    }

    var right: seq<PhotoRecord> := [];
    cycle := 0;
    while cycle < Cycles
      invariant 0 <= cycle <= Cycles
      invariant |right| == cycle * PerCycle
      invariant forall k :: 0 <= k < |right| ==> right[k] == RightPhoto(k / PerCycle, k % PerCycle)
    {
      var i := 0;
      while i < PerCycle
        invariant 0 <= i <= PerCycle
        invariant |right| == cycle * PerCycle + i
        invariant forall k :: 0 <= k < |right| ==> right[k] == RightPhoto(k / PerCycle, k % PerCycle)
      {
        Position(cycle, i);
        right := right + [RightPhoto(cycle, i)];
        i := i + 1;
      }
      cycle := cycle + 1;
    }

    photos := left + right;
  }

  /** A left record sits at its own `index`, and its delay is that index times four seconds. */
  lemma LeftFields(photos: seq<PhotoRecord>, k: nat)
    requires IsPhotoData(photos) && k < SideCount
    ensures photos[k].index == k
    ensures photos[k].delay == photos[k].index * SlideMs
    ensures photos[k].displayNumber == k % PerCycle + 1
    ensures 1 <= photos[k].displayNumber <= PerCycle
    ensures photos[k].cycle == k / PerCycle
  {
  }

  /** Consecutive left records start exactly four seconds apart. */
  lemma LeftDelaysStep(photos: seq<PhotoRecord>, k: nat)
    requires IsPhotoData(photos) && k + 1 < SideCount
    ensures photos[k + 1].delay == photos[k].delay + SlideMs
  {
    LeftFields(photos, k);
    LeftFields(photos, k + 1);
  }

  /**
   The right record at position `k` of its half shows photo `36 - k mod 18`
   and starts together with the left record at position `k`.
   */
  lemma RightFields(photos: seq<PhotoRecord>, k: nat)
    requires IsPhotoData(photos) && k < SideCount
    ensures photos[SideCount + k].displayNumber == TopPhoto - k % PerCycle
    ensures PerCycle + 1 <= photos[SideCount + k].displayNumber <= TopPhoto
    ensures photos[SideCount + k].delay == photos[k].delay
    ensures photos[SideCount + k].index == k + PerCycle
    ensures photos[SideCount + k].cycle == k / PerCycle
  {
    LeftFields(photos, k);
  }

  /** Within one cycle the right photo numbers count down by one. */
  lemma RightDescending(photos: seq<PhotoRecord>, k: nat)
    requires IsPhotoData(photos) && k + 1 < SideCount && (k + 1) % PerCycle != 0
    ensures photos[SideCount + k + 1].displayNumber == photos[SideCount + k].displayNumber - 1
  {
    RightFields(photos, k);
    RightFields(photos, k + 1);
  }

  /**
   `index` is not a key: the right record at position `k` of its half has
   the same index as the left record one cycle later at the same slot.
   */
  lemma IndexCollision(photos: seq<PhotoRecord>, k: nat)
    requires IsPhotoData(photos) && k + PerCycle < SideCount
    ensures photos[SideCount + k].index == photos[k + PerCycle].index
    ensures SideCount + k != k + PerCycle
  {
    RightFields(photos, k);
    LeftFields(photos, k + PerCycle);
  }

  lemma LeftIdInjective(p1: nat, c1: nat, p2: nat, c2: nat)
    requires LeftId(p1, c1) == LeftId(p2, c2)
    ensures p1 == p2 && c1 == c2
  {
    SplitIdInjective("left-", p1, c1, p2, c2);
  }

  lemma RightIdInjective(p1: nat, c1: nat, p2: nat, c2: nat)
    requires RightId(p1, c1) == RightId(p2, c2)
    ensures p1 == p2 && c1 == c2
  {
    SplitIdInjective("right-", p1, c1, p2, c2);
  }

  /** A left id and a right id never coincide. */
  lemma LeftRightIdsDiffer(p1: nat, c1: nat, p2: nat, c2: nat)
    ensures LeftId(p1, c1) != RightId(p2, c2)
  {
    assert LeftId(p1, c1)[0] == 'l';
    assert RightId(p2, c2)[0] == 'r';
  }

  /**
   `prefix + digits + "-cycle-" + digits` determines both numbers: digits
   contain no '-', so the first '-' after the prefix ends the first number.
   */
  lemma SplitIdInjective(prefix: string, p1: nat, c1: nat, p2: nat, c2: nat)
    requires prefix + Decimal.ToDecimal(p1) + "-cycle-" + Decimal.ToDecimal(c1)
          == prefix + Decimal.ToDecimal(p2) + "-cycle-" + Decimal.ToDecimal(c2)
    ensures p1 == p2 && c1 == c2
  {
    TaggedPairInjective(prefix, Decimal.ToDecimal(p1), Decimal.ToDecimal(c1),
                        Decimal.ToDecimal(p2), Decimal.ToDecimal(c2));
    Decimal.ToDecimalInjective(p1, p2);
    Decimal.ToDecimalInjective(c1, c2);
  }

  lemma TaggedPairInjective(prefix: string, a1: string, b1: string, a2: string, b2: string)
    requires Decimal.AllDigits(a1) && Decimal.AllDigits(a2)
    requires prefix + a1 + "-cycle-" + b1 == prefix + a2 + "-cycle-" + b2
    ensures a1 == a2 && b1 == b2
  {
    var rest1, rest2 := "-cycle-" + b1, "-cycle-" + b2;
    assert prefix + a1 + "-cycle-" + b1 == prefix + (a1 + rest1);
    assert prefix + a2 + "-cycle-" + b2 == prefix + (a2 + rest2);
    assert a1 + rest1 == (prefix + (a1 + rest1))[|prefix|..];
    assert a2 + rest2 == (prefix + (a2 + rest2))[|prefix|..];
    DigitsThenDash(a1, rest1, a2, rest2);
    assert b1 == rest1[7..] && b2 == rest2[7..];
  }

  /** The number of digits at the front of `s`. */
  function LeadingDigits(s: string): (n: nat)
    ensures n <= |s|
  {
    if |s| > 0 && Decimal.IsDigit(s[0]) then 1 + LeadingDigits(s[1..]) else 0
  }

  lemma {:induction false} LeadingDigitsOfDigitsThenDash(a: string, rest: string)
    requires Decimal.AllDigits(a)
    requires |rest| > 0 && rest[0] == '-'
    ensures LeadingDigits(a + rest) == |a|
    decreases |a|
  {
    if |a| > 0 {
      assert (a + rest)[1..] == a[1..] + rest;
      LeadingDigitsOfDigitsThenDash(a[1..], rest);
    } else {
      assert a + rest == rest;
    }
  }

  /** A run of digits ended by '-' is read back unambiguously. */
  lemma DigitsThenDash(a1: string, rest1: string, a2: string, rest2: string)
    requires Decimal.AllDigits(a1) && Decimal.AllDigits(a2)
    requires |rest1| > 0 && rest1[0] == '-' && |rest2| > 0 && rest2[0] == '-'
    requires a1 + rest1 == a2 + rest2
    ensures a1 == a2 && rest1 == rest2
  {
    var s := a1 + rest1;
    LeadingDigitsOfDigitsThenDash(a1, rest1);
    LeadingDigitsOfDigitsThenDash(a2, rest2);
    assert a1 == s[..|a1|] && a2 == s[..|a2|];
    assert rest1 == s[|a1|..] && rest2 == s[|a2|..];
  }

  /** Every record has its own id, although `index` repeats. */
  lemma IdsDistinct(photos: seq<PhotoRecord>)
    requires IsPhotoData(photos)
    ensures forall j, k :: 0 <= j < k < |photos| ==> photos[j].id != photos[k].id
  {
    forall j, k | 0 <= j < k < |photos|
      ensures photos[j].id != photos[k].id
    {
      if k < SideCount {
        if photos[j].id == photos[k].id {
          LeftIdInjective(j % PerCycle + 1, j / PerCycle, k % PerCycle + 1, k / PerCycle);
        }
      } else if j < SideCount {
        LeftRightIdsDiffer(j % PerCycle + 1, j / PerCycle,
                           TopPhoto - (k - SideCount) % PerCycle, (k - SideCount) / PerCycle);
      } else {
        if photos[j].id == photos[k].id {
          RightIdInjective(TopPhoto - (j - SideCount) % PerCycle, (j - SideCount) / PerCycle,
                           TopPhoto - (k - SideCount) % PerCycle, (k - SideCount) / PerCycle);
        }
      }
    }
  }
}
