/** `Statuses::getStatusByDuration`: grades an attendance by the share of the meeting that was
    attended. PHP divides with floating point; the model uses exact reals. */
module Statuses {

  const PRESENT: string := "P"
  const ABSENT: string := "A"
  const LATE: string := "L"
  const EXCUSED: string := "E"

  /** Present when the percentage reaches the minimum, late when some but too little of the
      meeting was attended, absent otherwise. `total` is a divisor, so it may not be zero. */
  function GetStatusByDuration(duration: real, total: real, minPercentage: real): (s: string)
    requires total != 0.0
    ensures s == PRESENT || s == LATE || s == ABSENT
  {
    var percentage := (duration / total) * 100.0;
    if percentage >= minPercentage then PRESENT
    else if percentage > 0.0 then LATE
    else ABSENT
  }

  /** How good a grade is: absent < late < present. */
  function Rank(s: string): nat {
    if s == PRESENT then 2 else if s == LATE then 1 else 0
  }

  lemma DivideMonotone(a: real, b: real, t: real)
    requires t > 0.0 && a <= b
    ensures a / t <= b / t
  {
    assert b / t - a / t == (b - a) / t;
  }

  lemma PercentageScaled(duration: real, total: real)
    requires total > 0.0
    ensures (duration / total) * 100.0 * total == duration * 100.0
  {
    assert duration / total * total == duration;
  }

  /** For a positive total the grade is decided by cross-multiplied comparisons, with no
      division: present iff 100·duration ≥ min·total, late iff 0 < 100·duration < min·total. */
  lemma StatusWithoutDivision(duration: real, total: real, minPercentage: real)
    requires total > 0.0
    ensures (GetStatusByDuration(duration, total, minPercentage) == PRESENT)
            == (duration * 100.0 >= minPercentage * total)
    ensures (GetStatusByDuration(duration, total, minPercentage) == LATE)
            == (0.0 < duration && duration * 100.0 < minPercentage * total)
    ensures (GetStatusByDuration(duration, total, minPercentage) == ABSENT)
            == (duration <= 0.0 && duration * 100.0 < minPercentage * total)
  {
    var p := (duration / total) * 100.0;
    PercentageScaled(duration, total);
    assert p * total == duration * 100.0;
    if p >= minPercentage {
      assert (p - minPercentage) * total >= 0.0;
    } else {
      assert (minPercentage - p) * total > 0.0;
    }
    if p > 0.0 {
      assert p * total > 0.0;
    } else {
      assert p * total <= 0.0;
    }
  }

  /** With a positive total, attending longer never lowers the grade. */
  lemma {:induction false} StatusMonotoneInDuration(d1: real, d2: real, total: real, minPercentage: real)
    requires total > 0.0 && d1 <= d2
    ensures Rank(GetStatusByDuration(d1, total, minPercentage))
              <= Rank(GetStatusByDuration(d2, total, minPercentage))
  {
    DivideMonotone(d1, d2, total);
  }
}
