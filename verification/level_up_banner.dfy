/** The level-up banner's level and its three-way choice of heading and body (`src/components/LevelUpBanner`). */
module LevelUpBanner {
  import opened Text
  import HeaderLevel

  /** Which of the three messages the banner shows. */
  datatype Branch = Starting | LeveledUp | InProgress

  datatype Banner = Banner(branch: Branch, heading: string, body: string)

  /**
   * `Math.floor(currentXP / maxXP) + 1`, unguarded: the caller must pass a positive `maxXP`.
   * The level's band `[(level - 1) * maxXP, level * maxXP)` holds the experience.
   */
  function BannerLevel(currentXP: int, maxXP: int): (level: int)
    requires maxXP > 0
    ensures (level - 1) * maxXP <= currentXP < level * maxXP
  {
    var q := currentXP / maxXP;
    assert q * maxXP <= currentXP < (q + 1) * maxXP;
    q + 1
  }

  /**
   * JavaScript's `%`, which truncates toward zero: the remainder takes the sign of `a`, lies
   * strictly within `b` of zero and differs from `a` by a multiple of `b`, which fixes it.
   */
  function JsRem(a: int, b: int): (r: int)
    requires b > 0
    ensures a >= 0 ==> 0 <= r < b
    ensures a < 0 ==> -b < r <= 0
    ensures (a - r) % b == 0
  {
    if a >= 0 then
      RemainderLeavesMultiple(a, b);
      a % b
    else
      RemainderLeavesMultiple(-a, b);
      NegatedMultiple((-a) - (-a) % b, b);
      -((-a) % b)
  }

  /** A nonzero multiple of a positive `b` is at least `b` away from zero. */
  lemma MulAwayFromZero(x: int, b: int)
    requires b > 0
    ensures x >= 1 ==> x * b >= b
    ensures x <= -1 ==> x * b <= -b
  {
  }

  /** A multiple of `b` leaves no remainder and divides back exactly. */
  lemma {:induction false} MultipleDivides(q: int, b: int)
    requires b > 0
    ensures (q * b) % b == 0 && (q * b) / b == q
  {
    var d, r := (q * b) / b, (q * b) % b;
    assert q * b == d * b + r;
    assert (q - d) * b == r;
    MulAwayFromZero(q - d, b);
  }

  /** Taking away the Euclidean remainder leaves a multiple of `b`. */
  lemma {:induction false} RemainderLeavesMultiple(a: int, b: int)
    requires b > 0
    ensures (a - a % b) % b == 0
  {
    var q := a / b;
    assert a - a % b == q * b;
    MultipleDivides(q, b);
  }

  /** The negation of a multiple of `b` is a multiple of `b`. */
  lemma {:induction false} NegatedMultiple(x: int, b: int)
    requires b > 0 && x % b == 0
    ensures (-x) % b == 0
  {
    var q := x / b;
    assert -x == (-q) * b;
    MultipleDivides(-q, b);
  }

  /** A truncated remainder is zero exactly when the Euclidean one is. */
  lemma {:induction false} JsRemZero(a: int, b: int)
    requires b > 0
    ensures JsRem(a, b) == 0 <==> a % b == 0
  {
    if a < 0 {
      if a % b == 0 {
        var q := a / b;
        assert a == q * b;
        assert -a == (-q) * b;
        MultipleDivides(-q, b);
      }
      if (-a) % b == 0 {
        var q := (-a) / b;
        assert -a == q * b;
        assert a == (-q) * b;
        MultipleDivides(-q, b);
      }
    }
  }

  /** `XP Progress: ${currentXP}/${maxXP}`, the tail of every body. */
  function ProgressText(currentXP: int, maxXP: int): string {
    "XP Progress: " + IntToString(currentXP) + "/" + IntToString(maxXP)
  }

  /**
   * The branch the if/else chain takes: no experience selects the starting message, a nonzero
   * multiple of `maxXP` the level-up message, anything else the in-progress message.
   */
  function BranchOf(currentXP: int, maxXP: int): (branch: Branch)
    requires maxXP > 0
    ensures branch == Starting <==> currentXP == 0
    ensures branch == LeveledUp <==> currentXP != 0 && currentXP % maxXP == 0
    ensures branch == InProgress <==> currentXP % maxXP != 0
  {
    JsRemZero(currentXP, maxXP);
    if currentXP == 0 && BannerLevel(currentXP, maxXP) == 1 then Starting
    else if JsRem(currentXP, maxXP) == 0 && currentXP != 0 then LeveledUp
    else InProgress
  }

  /** A message followed by the progress read-out. */
  function WithProgress(message: string, currentXP: int, maxXP: int): (body: string)
    ensures |body| >= |ProgressText(currentXP, maxXP)|
    ensures body[|body| - |ProgressText(currentXP, maxXP)|..] == ProgressText(currentXP, maxXP)
  {
    message + ProgressText(currentXP, maxXP)
  }

  /** The heading and body of the chosen branch; every body ends with the progress read-out. */
  function LevelBanner(currentXP: int, maxXP: int): (b: Banner)
    requires maxXP > 0
    ensures b.branch == BranchOf(currentXP, maxXP)
    ensures |b.body| >= |ProgressText(currentXP, maxXP)|
    ensures b.body[|b.body| - |ProgressText(currentXP, maxXP)|..] == ProgressText(currentXP, maxXP)
  {
    var level := IntToString(BannerLevel(currentXP, maxXP));
    match BranchOf(currentXP, maxXP)
    case Starting =>
      Banner(Starting, "You're currently Level " + level,
             WithProgress("Clear some bounties to earn your next level. ", currentXP, maxXP))
    case LeveledUp =>
      Banner(LeveledUp, "\U{1F389} You Leveled Up!",
             WithProgress("Great job! You've reached Level " + level + ". ", currentXP, maxXP))
    case InProgress =>
      Banner(InProgress, "Level " + level,
             WithProgress("Keep going to reach the next level! ", currentXP, maxXP))
  }

  /** A new player is told they are at level 1. */
  lemma StartingAtLevelOne(maxXP: int)
    requires maxXP > 0
    ensures LevelBanner(0, maxXP).heading == "You're currently Level 1"
  {
  }

  /** Reaching exactly the start of a level other than the first congratulates on that level. */
  lemma LeveledUpNamesLevel(level: int, currentXP: int, maxXP: int)
    requires maxXP > 0 && level != 1
    requires currentXP == (level - 1) * maxXP
    ensures LevelBanner(currentXP, maxXP).branch == LeveledUp
    ensures LevelBanner(currentXP, maxXP).body ==
      "Great job! You've reached Level " + IntToString(level) + ". " + ProgressText(currentXP, maxXP)
  {
    MultipleDivides(level - 1, maxXP);
    MulAwayFromZero(level - 1, maxXP);
    assert BannerLevel(currentXP, maxXP) == level;
  }

  /**
   * For non-negative experience the banner's level is the header's level; below zero the
   * banner's level drops under 1 while the header stays at 1.
   */
  lemma LevelsAgree(currentXP: int, maxXP: int)
    requires maxXP > 0
    ensures currentXP >= 0 ==> BannerLevel(currentXP, maxXP) == HeaderLevel.ComputeLevel(currentXP, maxXP)
    ensures currentXP < 0 ==> BannerLevel(currentXP, maxXP) <= 0 && HeaderLevel.ComputeLevel(currentXP, maxXP) == 1
  {
  }
}
