/**
 * The widget's task list (`todo`) together with its XP ledger (`stats`), and every
 * operation the page's controls perform on them: add, edit, check/uncheck, delete one,
 * delete all, and drag-and-drop reordering.
 */
module Board {
  import opened Wrappers
  import opened Text
  import opened Tasks
  import opened Ledger

  /** How committing an in-place edit ends. */
  datatype EditOutcome =
    | Updated   // the task's text was replaced
    | Ignored   // the trimmed text was blank: nothing changes
    | Threw     // the index names no task: writing `todo[index].text` raises a TypeError

  /** An array slot after a drop: a task, or the `undefined` a failed `splice` leaves. */
  datatype Slot = Present(task: Task) | Undefined

  function Lift(s: seq<Task>): (r: seq<Slot>)
    ensures |r| == |s| && Undefined !in r
    ensures forall k :: 0 <= k < |s| ==> r[k] == Present(s[k])
  {
    if s == [] then [] else [Present(s[0])] + Lift(s[1..])
  }

  /**
   * The drop handler as written: with both indices parsed and different, `splice`
   * removes what sits at the (relative) `from` position and re-inserts it at `to`.
   * When `from` is at or past the end, the removal takes nothing and `undefined` is
   * inserted instead.
   */
  function DropAsWritten(todo: seq<Task>, from: Option<int>, to: Option<int>): (r: seq<Slot>)
    ensures |r| == |todo| || |r| == |todo| + 1
  {
    if from.None? || to.None? || from.value == to.value then Lift(todo)
    else
      var i := SpliceStart(|todo|, from.value);
      if i < |todo| then Lift(Moved(todo, i, SpliceStart(|todo| - 1, to.value)))
      else Inserted(Lift(todo), SpliceStart(|todo|, to.value), Undefined)
  }

  /**
   * Dropping text that parses to an index at or past the end of the list (text dragged
   * in from outside the list, say "5") puts `undefined` into the task list and grows it.
   */
  lemma DropPastEndInsertsUndefined(todo: seq<Task>, from: int, to: int)
    requires from >= |todo| && from != to
    ensures Undefined in DropAsWritten(todo, Some(from), Some(to))
    ensures |DropAsWritten(todo, Some(from), Some(to))| == |todo| + 1
  {
    var r := DropAsWritten(todo, Some(from), Some(to));
    assert r[SpliceStart(|todo|, to)] == Undefined;
  }

  /**
   * The corrected drop: the same reorder, but a `from` position at or past the end of
   * the list leaves the list alone. A negative `from` still counts from the end, as
   * `splice` does.
   */
  function Dropped(todo: seq<Task>, from: Option<int>, to: Option<int>): (r: seq<Task>)
    ensures |r| == |todo| && multiset(r) == multiset(todo)
    ensures from.None? || to.None? || from.value == to.value ==> r == todo
    ensures from.Some? && to.Some? && from.value != to.value && SpliceStart(|todo|, from.value) < |todo|
            ==> var i, j := SpliceStart(|todo|, from.value), SpliceStart(|todo| - 1, to.value);
                r[j] == todo[i] && Removed(r, j) == Removed(todo, i)
    ensures from.Some? && to.Some? && SpliceStart(|todo|, from.value) >= |todo| ==> r == todo
  {
    if from.None? || to.None? || from.value == to.value then todo
    else
      var i := SpliceStart(|todo|, from.value);
      if i < |todo| then Moved(todo, i, SpliceStart(|todo| - 1, to.value)) else todo
  }

  /** Wherever the drop as written keeps a well-formed list, the corrected drop agrees with it. */
  lemma DroppedAgreesWhenDefined(todo: seq<Task>, from: Option<int>, to: Option<int>)
    requires Undefined !in DropAsWritten(todo, from, to)
    ensures DropAsWritten(todo, from, to) == Lift(Dropped(todo, from, to))
  {
  }

  class TaskBoard {
    var todo: seq<Task>
    var stats: Stats

    /**
     * What every state reached from a fresh start satisfies: well-formed tasks, the
     * level in sync with the XP, and at least one XP on the ledger for every task that
     * has earned one (so taking an XP back never hits the floor at zero).
     */
    ghost predicate Consistent()
      reads this
    {
      AllWellFormed(todo) && InSync(stats) && AwardedCount(todo) <= stats.xp
    }

    /**
     * Startup: the stored list and ledger when present, otherwise `[]` and
     * `{xp: 0, level: 0}`.
     */
    constructor (storedTodo: Option<seq<Task>>, storedStats: Option<Stats>)
      ensures todo == storedTodo.GetOr([])
      ensures stats == storedStats.GetOr(Stats(0, 0))
      ensures storedTodo.None? && storedStats.None? ==> Consistent()
    {
      todo := storedTodo.GetOr([]);
      stats := storedStats.GetOr(Stats(0, 0));
    }

    /** Adds the trimmed input as a new open task, unless it is blank. */
    method AddTask(input: string) returns (added: bool)
      modifies this
      ensures added <==> !AllTrimmable(input)
      ensures todo == if added then old(todo) + [Task(Trim(input), false, false)] else old(todo)
      ensures stats == old(stats)
      ensures old(Consistent()) ==> Consistent()
    {
      var text := Trim(input);
      TrimBlank(input);
      added := text != "";
      if added {
        var t := Task(text, false, false);
        if Consistent() {
          AllWellFormedAppend(todo, t);
          AwardedCountConcat(todo, [t]);
        }
        todo := todo + [t];
      }
    }

    /** Commits an in-place edit of task `index` with the trimmed input. */
    method CommitEdit(index: int, input: string) returns (outcome: EditOutcome)
      modifies this
      ensures outcome == Ignored <==> AllTrimmable(input)
      ensures outcome == Threw <==> !AllTrimmable(input) && !(0 <= index < |old(todo)|)
      ensures outcome == Updated ==> todo == old(todo)[index := old(todo)[index].(text := Trim(input))]
      ensures outcome != Updated ==> todo == old(todo)
      ensures stats == old(stats)
      ensures old(Consistent()) ==> Consistent()
    {
      var text := Trim(input);
      TrimBlank(input);
      if text == "" {
        return Ignored;
      }
      if !(0 <= index < |todo|) {
        return Threw;
      }
      var t := todo[index].(text := text);
      if Consistent() {
        AllWellFormedUpdate(todo, index, t);
        AwardedCountUpdate(todo, index, t);
      }
      todo := todo[index := t];
      outcome := Updated;
    }

    /**
     * Flips the completed flag of task `index` and settles its XP; an index that
     * names no task changes nothing.
     */
    method ToggleTaskStatus(index: int)
      modifies this
      ensures !(0 <= index < |old(todo)|) ==> todo == old(todo) && stats == old(stats)
      ensures 0 <= index < |old(todo)| ==>
                |todo| == |old(todo)|
                && (todo[index], stats) == ToggleOutcome(old(todo)[index], old(stats))
                && forall k :: 0 <= k < |todo| && k != index ==> todo[k] == old(todo)[k]
      ensures old(Consistent()) && 0 <= index < |old(todo)| && old(todo)[index].xpAwarded
              ==> stats.xp + 1 == old(stats).xp
      ensures old(Consistent()) ==> Consistent()
    {
      if !(0 <= index < |todo|) {
        return;
      }
      if Consistent() {
        AwardedCountSplit(todo, index);
      }
      var t := todo[index];
      var wasDisabled := t.disabled;
      t := t.(disabled := !wasDisabled);
      if !wasDisabled {
        if !t.xpAwarded {
          stats := Award(stats);
          t := t.(xpAwarded := true);
        }
      } else {
        if t.xpAwarded {
          stats := Revoke(stats);
          t := t.(xpAwarded := false);
        }
      }
      AwardedCountUpdate(todo, index, t);
      todo := todo[index := t];
    }

    /**
     * The delete button of task `index`: an open task goes only when the user confirms,
     * a completed one goes without asking. The ledger keeps any XP the task earned.
     */
    method DeleteTask(index: int, confirmed: bool) returns (deleted: bool)
      modifies this
      ensures deleted <==> 0 <= index < |old(todo)| && (old(todo)[index].disabled || confirmed)
      ensures todo == if deleted then Removed(old(todo), index) else old(todo)
      ensures stats == old(stats)
      ensures old(Consistent()) ==> Consistent()
    {
      if !(0 <= index < |todo|) {
        return false;
      }
      if !todo[index].disabled && !confirmed {
        return false;
      }
      if Consistent() {
        AllWellFormedRemoved(todo, index);
        AwardedCountRemoved(todo, index);
      }
      todo := Removed(todo, index);
      deleted := true;
    }

    /** Empties the list when the user confirms; the ledger is never touched. */
    method DeleteAllTasks(confirmed: bool)
      modifies this
      ensures todo == if confirmed then [] else old(todo)
      ensures stats == old(stats)
      ensures old(Consistent()) ==> Consistent()
    {
      if !confirmed {
        return;
      }
      todo := [];
    }

    /**
     * Drops the task dragged from position `from` onto the task at `to`; either index
     * may have failed to parse. Uses the corrected drop: a `from` position that names
     * no task leaves the list alone.
     */
    method DropTask(from: Option<int>, to: Option<int>)
      modifies this
      ensures todo == Dropped(old(todo), from, to)
      ensures stats == old(stats)
      ensures old(Consistent()) ==> Consistent()
    {
      if from.None? || to.None? || from.value == to.value {
        return;
      }
      var i := SpliceStart(|todo|, from.value);
      if i == |todo| {
        return;
      }
      var moved := todo[i];
      var rest := Removed(todo, i);
      var j := SpliceStart(|rest|, to.value);
      if Consistent() {
        AllWellFormedMoved(todo, i, j);
        AwardedCountMoved(todo, i, j);
      }
      todo := Inserted(rest, j, moved);
    }
  }
}
