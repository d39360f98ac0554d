/**
 * Level cycling: the persisted level number, the index of the level it
 * selects among the configured levels, and the retry and next-level
 * transitions.
 */
module LevelManagement {
  import opened Levels

  function Abs(n: int): (r: int)
    ensures r >= 0 && (r == n || r == -n)
  {
    if n < 0 then -n else n
  }

  /** C#'s integer `/`: the quotient rounded toward zero. */
  function CsQuotient(a: int, b: int): int
    requires b != 0
  {
    var q := Abs(a) / Abs(b);
    if (a < 0) == (b < 0) then q else -q
  }

  /**
   * C#'s integer `%`: the remainder left by `CsQuotient`, which takes the
   * sign of the dividend and is smaller than the divisor in magnitude.
   */
  function CsRemainder(a: int, b: int): (r: int)
    requires b != 0
    ensures a == b * CsQuotient(a, b) + r
    ensures Abs(r) < Abs(b)
    ensures a >= 0 ==> r >= 0
    ensures a <= 0 ==> r <= 0
  {
    if a >= 0 then a % Abs(b) else -((-a) % Abs(b))
  }

  /**
   * The index `(levelNo - 1) % count` of the level that level number
   * `levelNo` plays, with C#'s `%`. It lies in `[0, count)` for every level
   * number from 1 on.
   */
  function LevelIndex(levelNo: int, count: int): (r: int)
    requires count > 0
    ensures levelNo >= 1 ==> 0 <= r < count && r == (levelNo - 1) % count
  {
    CsRemainder(levelNo - 1, count)
  }

  /** Division with a remainder in `[0, c)` has only one answer. */
  lemma DivModUnique(a: int, c: int, q: int, r: int)
    requires c > 0 && 0 <= r < c && a == c * q + r
    ensures a / c == q && a % c == r
  {
    var q', r' := a / c, a % c;
    assert c * (q' - q) == r - r';
    if q' > q {
      MulAtLeast(c, q' - q);
    } else if q' < q {
      MulAtLeast(c, q - q');
    }
  }

  lemma MulAtLeast(c: int, k: int)
    requires c > 0 && k >= 1
    ensures c * k >= c
  {
  }

  /** Level numbers `count` apart play the same level. */
  lemma LevelIndexPeriodic(levelNo: int, count: int)
    requires count > 0 && levelNo >= 1
    ensures LevelIndex(levelNo + count, count) == LevelIndex(levelNo, count)
  {
    var n := levelNo - 1;
    DivModUnique(n + count, count, n / count + 1, n % count);
  }

  /** The next level number plays the next level, wrapping after the last one. */
  lemma LevelIndexNext(levelNo: int, count: int)
    requires count > 0 && levelNo >= 1
    ensures LevelIndex(levelNo + 1, count) == (LevelIndex(levelNo, count) + 1) % count
  {
    var n := levelNo - 1;
    if n % count + 1 < count {
      DivModUnique(n + 1, count, n / count, n % count + 1);
      DivModUnique(n % count + 1, count, 0, n % count + 1);
    } else {
      DivModUnique(n + 1, count, n / count + 1, 0);
      DivModUnique(count, count, 1, 0);
    }
  }

  /**
   * Level numbers just below 1 give a negative index, which the array
   * access rejects; with more than one level, level number 0 is such a one.
   */
  lemma LevelIndexBelowOne(levelNo: int, count: int)
    requires count > 0 && 1 - count < levelNo < 1
    ensures LevelIndex(levelNo, count) == levelNo - 1 < 0
  {
  }

  /** A `PlayerPrefs` integer entry: absent, or holding a value. */
  datatype StoredInt = Missing | Stored(value: int)

  class LevelManager {
    /** The persisted `LEVEL_NO` entry behind the `LevelNo` property. */
    var levelNoEntry: StoredInt
    /** The configured level assets, in play order. */
    const levels: seq<LevelData>
    var currentLevelIndex: int
    var currentLevelData: LevelData?

    /** The `LevelNo` getter: the stored entry, or 1 when nothing is stored. */
    function LevelNo(): (n: int)
      reads this
      ensures levelNoEntry == Missing ==> n == 1
      ensures levelNoEntry.Stored? ==> n == levelNoEntry.value
    {
      match levelNoEntry
      case Missing => 1
      case Stored(value) => value
    }

    /** The `LevelNo` setter: stores `value`. */
    method SetLevelNo(value: int)
      modifies this`levelNoEntry
      ensures LevelNo() == value
    {
      levelNoEntry := Stored(value);
    }

    /** The level being played is the one the current level number selects. */
    ghost predicate Loaded()
      reads this
    {
      && |levels| > 0
      && currentLevelIndex == LevelIndex(LevelNo(), |levels|)
      && 0 <= currentLevelIndex < |levels|
      && currentLevelData == levels[currentLevelIndex]
    }

    /** A manager over `levels` whose persisted level number is `entry`; nothing is loaded yet. */
    constructor (levels: seq<LevelData>, entry: StoredInt)
      ensures this.levels == levels && levelNoEntry == entry
      ensures currentLevelIndex == 0 && currentLevelData == null
    {
      this.levels := levels;
      levelNoEntry := entry;
      currentLevelIndex := 0;
      currentLevelData := null;
    }

    /**
     * `LoadLevel()`: selects the level at `(LevelNo - 1) % levels.Length`.
     * The division needs at least one level and the array access a
     * non-negative index.
     */
    method LoadLevel()
      requires |levels| > 0 && LevelIndex(LevelNo(), |levels|) >= 0
      modifies this`currentLevelIndex, this`currentLevelData
      ensures Loaded()
    {
      currentLevelIndex := CsRemainder(LevelNo() - 1, |levels|);
      currentLevelData := levels[currentLevelIndex];
    }

    /** `RetryLevel()`: reloads without touching the level number, so the same level comes back. */
    method RetryLevel()
      requires |levels| > 0 && LevelIndex(LevelNo(), |levels|) >= 0
      modifies this`currentLevelIndex, this`currentLevelData
      ensures Loaded() && LevelNo() == old(LevelNo())
      ensures old(Loaded()) ==>
                currentLevelIndex == old(currentLevelIndex) && currentLevelData == old(currentLevelData)
    {
      LoadLevel();
    }

    /**
     * `LoadNextLevel()`: increments the level number, then reloads; from a
     * loaded level with a positive level number this moves to the next
     * level, wrapping around after the last one.
     */
    method LoadNextLevel()
      requires |levels| > 0 && LevelIndex(LevelNo() + 1, |levels|) >= 0
      modifies this`levelNoEntry, this`currentLevelIndex, this`currentLevelData
      ensures Loaded() && LevelNo() == old(LevelNo()) + 1
      ensures old(Loaded()) && old(LevelNo()) >= 1 ==>
                currentLevelIndex == (old(currentLevelIndex) + 1) % |levels|
    {
      ghost var before := LevelNo();
      SetLevelNo(LevelNo() + 1);
      LoadLevel();
      if before >= 1 {
        LevelIndexNext(before, |levels|);
      }
    }
  }
}
