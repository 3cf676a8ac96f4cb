/**
 * The XP/level ledger (`stats`): one XP per completed task, at most once per task,
 * taken back when the task is unchecked, and the level derived from the XP.
 */
module Ledger {
  import opened Tasks

  datatype Stats = Stats(xp: nat, level: nat)

  const XpPerLevel: nat := 10

  /** `Math.floor(xp / 10)`: the number of whole ten-XP steps reached. */
  function LevelOf(xp: nat): (l: nat)
    ensures l * XpPerLevel <= xp < (l + 1) * XpPerLevel
  {
    xp / XpPerLevel
  }

  /** The ledger invariant: the stored level is the one the XP determines. */
  predicate InSync(s: Stats) {
    s.level == LevelOf(s.xp)
  }

  /** One XP more, level recomputed. */
  function Award(s: Stats): (r: Stats)
    ensures r.xp == s.xp + 1 && InSync(r)
    ensures InSync(s) ==> r.level == (if r.xp % XpPerLevel == 0 then s.level + 1 else s.level)
  {
    var xp := s.xp + 1;
    Stats(xp, LevelOf(xp))
  }

  /** One XP less but never below zero, level recomputed. */
  function Revoke(s: Stats): (r: Stats)
    ensures r.xp + 1 == s.xp || (s.xp == 0 && r.xp == 0)
    ensures InSync(r)
    ensures InSync(s) ==> r.level <= s.level
  {
    var xp := if s.xp - 1 < 0 then 0 else s.xp - 1;
    Stats(xp, LevelOf(xp))
  }

  /** Taking back an XP just awarded restores the ledger. */
  lemma RevokeUndoesAward(s: Stats)
    requires InSync(s)
    ensures Revoke(Award(s)) == s
  {
  }

  /** Re-awarding an XP just taken back restores the ledger, unless it was floored at zero. */
  lemma AwardUndoesRevoke(s: Stats)
    requires InSync(s) && s.xp > 0
    ensures Award(Revoke(s)) == s
  {
  }

  /** The ledger after `n` awards in a row. */
  function AwardedTimes(s: Stats, n: nat): (r: Stats)
    ensures r.xp == s.xp + n
    ensures n > 0 ==> InSync(r)
  {
    if n == 0 then s else Award(AwardedTimes(s, n - 1))
  }

  /**
   * The "XP left" figure the profile shows: the distance to the next ten-XP
   * threshold, never negative.
   */
  function XpLeft(s: Stats): (r: nat)
    ensures r == 0 <==> s.xp >= (s.level + 1) * XpPerLevel
    ensures r > 0 ==> s.xp + r == (s.level + 1) * XpPerLevel
    ensures InSync(s) ==> 1 <= r <= XpPerLevel
  {
    var left := (s.level + 1) * XpPerLevel - s.xp;
    if left < 0 then 0 else left
  }

  /**
   * On an in-sync ledger, "XP left" is exactly the number of completions that reach
   * the next level: that many awards raise the level by one, and fewer leave it alone.
   */
  lemma {:induction false} XpLeftReachesNextLevel(s: Stats, n: nat)
    requires InSync(s)
    ensures n < XpLeft(s) ==> AwardedTimes(s, n).level == s.level
    ensures n == XpLeft(s) ==> AwardedTimes(s, n).level == s.level + 1
  {
    if n > 0 {
      XpLeftReachesNextLevel(s, n - 1);
    }
  }

  // ---------------------------------------------------------------------------
  // Checking and unchecking one task
  // ---------------------------------------------------------------------------

  /**
   * What flipping a task's checkbox does to that task and to the ledger. Checking an
   * open task awards one XP unless the task already earned it; unchecking a completed
   * task takes its XP back if it had earned it.
   */
  function ToggleOutcome(t: Task, s: Stats): (r: (Task, Stats))
    ensures r.0.text == t.text && r.0.disabled == !t.disabled
    ensures r.0.xpAwarded == r.0.disabled
    ensures !t.disabled && !t.xpAwarded ==> r.1.xp == s.xp + 1
    ensures !t.disabled && t.xpAwarded ==> r.1 == s
    ensures t.disabled && t.xpAwarded ==> r.1.xp + 1 == s.xp || (s.xp == 0 && r.1.xp == 0)
    ensures t.disabled && !t.xpAwarded ==> r.1 == s
    ensures t.xpAwarded == t.disabled ==> InSync(r.1)
    ensures InSync(s) ==> InSync(r.1)
  {
    if !t.disabled then
      if !t.xpAwarded then (t.(disabled := true, xpAwarded := true), Award(s))
      else (t.(disabled := true), s)
    else
      if t.xpAwarded then (t.(disabled := false, xpAwarded := false), Revoke(s))
      else (t.(disabled := false), s)
  }

  /**
   * Checking and then unchecking a task (or the reverse) restores both the task and the
   * ledger, provided the ledger is in sync, the task's award flag matches its state and
   * an awarded task's XP is still on the ledger.
   */
  lemma ToggleTwiceRestores(t: Task, s: Stats)
    requires InSync(s)
    requires t.xpAwarded == t.disabled
    requires t.xpAwarded ==> s.xp >= 1
    ensures ToggleOutcome(ToggleOutcome(t, s).0, ToggleOutcome(t, s).1) == (t, s)
  {
    if t.disabled {
      AwardUndoesRevoke(s);
    } else {
      RevokeUndoesAward(s);
    }
  }

  /** The task and the ledger after its checkbox is flipped `n` times in a row. */
  function ToggledTimes(t: Task, s: Stats, n: nat): (Task, Stats)
  {
    if n == 0 then (t, s)
    else
      var (t', s') := ToggledTimes(t, s, n - 1);
      ToggleOutcome(t', s')
  }

  /**
   * Flipping a checkbox any number of times cannot farm XP: the ledger always holds
   * exactly the XP it started with, less the task's own award at the start, plus the
   * task's own award now (one XP while the task stands completed, none otherwise).
   */
  lemma {:induction false} TogglesCannotFarmXp(t: Task, s: Stats, n: nat)
    requires t.xpAwarded == t.disabled
    requires t.xpAwarded ==> s.xp >= 1
    ensures var (tn, sn) := ToggledTimes(t, s, n);
            tn.xpAwarded == tn.disabled
            && sn.xp + (if t.xpAwarded then 1 else 0) == s.xp + (if tn.xpAwarded then 1 else 0)
  {
    if n > 0 {
      TogglesCannotFarmXp(t, s, n - 1);
    }
  }
}
