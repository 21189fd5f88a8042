/** The header's level and experience read-out (`src/components/Header`). */
module HeaderLevel {
  import opened Wrappers
  import opened Text

  /** The header's defaults for absent properties. */
  const DefaultCurrentXP: int := 0
  const DefaultMaxXP: int := 100

  /**
   * `computeLevel`: 1 when the per-level amount is not positive; otherwise the level whose
   * band `[(level - 1) * maxXP, level * maxXP)` holds the experience, and never below 1.
   * `Math.floor` with a positive divisor is Dafny's `/`.
   */
  function ComputeLevel(currentXP: int, maxXP: int): (level: int)
    ensures level >= 1
    ensures maxXP <= 0 ==> level == 1
    ensures currentXP < 0 ==> level == 1
    ensures currentXP >= 0 && maxXP > 0 ==> (level - 1) * maxXP <= currentXP < level * maxXP
  {
    if maxXP <= 0 then 1
    else
      var q := currentXP / maxXP;
      assert q * maxXP <= currentXP < (q + 1) * maxXP;
      Max(1, q + 1)
  }

  /** The level of the header's properties, each falling back to its default when absent. */
  function HeaderLevelOf(currentXP: Option<int>, maxXP: Option<int>): (level: int)
    ensures currentXP.None? && maxXP.None? ==> level == 1
  {
    ComputeLevel(currentXP.GetOr(DefaultCurrentXP), maxXP.GetOr(DefaultMaxXP))
  }

  /** More experience never lowers the level. */
  lemma LevelMonotone(a: int, b: int, maxXP: int)
    requires a <= b
    ensures ComputeLevel(a, maxXP) <= ComputeLevel(b, maxXP)
  {
    var la, lb := ComputeLevel(a, maxXP), ComputeLevel(b, maxXP);
    if maxXP > 0 && a >= 0 {
      assert (la - 1) * maxXP < lb * maxXP;
      MulCancel(la - 1, lb, maxXP);
    }
  }

  /** Multiplying by a positive factor keeps a strict order between integers. */
  lemma MulCancel(x: int, y: int, m: int)
    requires m > 0 && x * m < y * m
    ensures x < y
  {
    assert (y - x) * m == y * m - x * m;
  }

  /** `${currentXP}/${maxXP} XP`. */
  function XPSublabel(currentXP: int, maxXP: int): (s: string)
    ensures |s| >= 6
    ensures s[|s| - 3..] == " XP"
  {
    IntToString(currentXP) + "/" + IntToString(maxXP) + " XP"
  }

  /** With the defaults the header shows level 1 and "0/100 XP". */
  lemma Defaults()
    ensures HeaderLevelOf(None, None) == 1
    ensures XPSublabel(DefaultCurrentXP, DefaultMaxXP) == "0/100 XP"
  {
    assert NatToString(100) == NatToString(10) + [DigitChar(0)];
    assert NatToString(10) == NatToString(1) + [DigitChar(0)];
  }

  /**
   * The sublabel of non-negative amounts reads back: the digits before the first '/' are the
   * current experience, those between it and " XP" the per-level amount.
   */
  lemma SublabelReadsBack(currentXP: nat, maxXP: nat)
    ensures var s := XPSublabel(currentXP, maxXP);
      var k := |NatToString(currentXP)|;
      && k < |s| - 3 && s[k] == '/' && '/' !in s[..k]
      && ParseNat(s[..k]) == currentXP
      && ParseNat(s[k + 1..|s| - 3]) == maxXP
  {
    var a, b := NatToString(currentXP), NatToString(maxXP);
    var s := XPSublabel(currentXP, maxXP);
    assert s == a + "/" + b + " XP";
    assert s[..|a|] == a;
    assert s[|a| + 1..|s| - 3] == b;
    ParseNatToString(currentXP);
    ParseNatToString(maxXP);
  }
}
