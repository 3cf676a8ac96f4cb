/**
 * The task record and the pure operations on the task list: the array positions
 * `splice` works at, removing, inserting and moving one task, and the choice of the
 * task the focus panel shows.
 */
module Tasks {
  import opened Wrappers
  import opened Text

  /** One entry of `todo`; `disabled` is the "completed" flag. */
  datatype Task = Task(text: string, disabled: bool, xpAwarded: bool)

  /**
   * The shape every task created or edited through the widget has: a non-empty,
   * trimmed text, and XP only ever awarded for a task that is currently completed.
   */
  predicate WellFormed(t: Task) {
    t.text != [] && IsTrimmed(t.text) && (t.xpAwarded ==> t.disabled)
  }

  predicate AllWellFormed(s: seq<Task>) {
    forall k :: 0 <= k < |s| ==> WellFormed(s[k])
  }

  lemma AllWellFormedAppend(s: seq<Task>, t: Task)
    requires AllWellFormed(s) && WellFormed(t)
    ensures AllWellFormed(s + [t])
  {
  }

  lemma AllWellFormedUpdate(s: seq<Task>, i: nat, t: Task)
    requires i < |s|
    requires AllWellFormed(s) && WellFormed(t)
    ensures AllWellFormed(s[i := t])
  {
  }

  lemma AllWellFormedRemoved(s: seq<Task>, i: nat)
    requires i < |s| && AllWellFormed(s)
    ensures AllWellFormed(Removed(s, i))
  {
  }

  lemma AllWellFormedMoved(s: seq<Task>, i: nat, j: nat)
    requires i < |s| && j < |s| && AllWellFormed(s)
    ensures AllWellFormed(Moved(s, i, j))
  {
    var r := Moved(s, i, j);
    forall k | 0 <= k < |r| ensures WellFormed(r[k]) {
      assert r[k] in multiset(s);
    }
  }

  // ---------------------------------------------------------------------------
  // Positions and splicing
  // ---------------------------------------------------------------------------

  /**
   * The position `Array.prototype.splice` starts at for a start argument `k` on an
   * array of length `len`: a negative `k` counts from the end, and the result is
   * clamped to `0..len`.
   */
  function SpliceStart(len: nat, k: int): (r: nat)
    ensures r <= len
    ensures 0 <= k <= len ==> r == k
    ensures k > len ==> r == len
    ensures k < 0 && len + k >= 0 ==> r == len + k
    ensures len + k < 0 ==> r == 0
  {
    if k < 0 then (if len + k < 0 then 0 else len + k)
    else if k > len then len
    else k
  }

  /** The list without its `i`-th entry (`splice(i, 1)`). */
  function Removed<T>(s: seq<T>, i: nat): (r: seq<T>)
    requires i < |s|
    ensures |r| == |s| - 1
    ensures forall k :: 0 <= k < i ==> r[k] == s[k]
    ensures forall k :: i <= k < |r| ==> r[k] == s[k + 1]
    ensures multiset(r) + multiset{s[i]} == multiset(s)
  {
    assert s == s[..i] + [s[i]] + s[i + 1..];
    s[..i] + s[i + 1..]
  }

  /** The list with `x` put in at position `j` (`splice(j, 0, x)`). */
  function Inserted<T>(s: seq<T>, j: nat, x: T): (r: seq<T>)
    requires j <= |s|
    ensures |r| == |s| + 1
    ensures r[j] == x
    ensures forall k :: 0 <= k < j ==> r[k] == s[k]
    ensures forall k :: j < k < |r| ==> r[k] == s[k - 1]
    ensures multiset(r) == multiset(s) + multiset{x}
  {
    assert s == s[..j] + s[j..];
    s[..j] + [x] + s[j..]
  }

  lemma RemovedInserted<T>(s: seq<T>, j: nat, x: T)
    requires j <= |s|
    ensures Removed(Inserted(s, j, x), j) == s
  {
    var r := Removed(Inserted(s, j, x), j);
    assert forall k :: 0 <= k < |s| ==> r[k] == s[k];
  }

  lemma InsertedRemoved<T>(s: seq<T>, i: nat)
    requires i < |s|
    ensures Inserted(Removed(s, i), i, s[i]) == s
  {
    var r := Inserted(Removed(s, i), i, s[i]);
    assert forall k :: 0 <= k < |s| ==> r[k] == s[k];
  }

  /**
   * The drop handler's reorder: take the entry at `i` out, then put it back in at `j`
   * of the shortened list. The result is a permutation of `s` with the moved entry at
   * `j`, and the remaining entries keep their relative order.
   */
  function Moved<T>(s: seq<T>, i: nat, j: nat): (r: seq<T>)
    requires i < |s| && j < |s|
    ensures |r| == |s|
    ensures r[j] == s[i]
    ensures multiset(r) == multiset(s)
    ensures Removed(r, j) == Removed(s, i)
  {
    var r := Inserted(Removed(s, i), j, s[i]);
    RemovedInserted(Removed(s, i), j, s[i]);
    r
  }

  /** Moving an entry onto its own position leaves the list as it was. */
  lemma MovedInPlace<T>(s: seq<T>, i: nat)
    requires i < |s|
    ensures Moved(s, i, i) == s
  {
    InsertedRemoved(s, i);
  }

  /** Dragging the moved entry back to where it came from restores the list. */
  lemma MovedBack<T>(s: seq<T>, i: nat, j: nat)
    requires i < |s| && j < |s|
    ensures Moved(Moved(s, i, j), j, i) == s
  {
    var r := Moved(s, i, j);
    assert Moved(r, j, i) == Inserted(Removed(s, i), i, s[i]);
    InsertedRemoved(s, i);
  }

  // ---------------------------------------------------------------------------
  // Choosing the focus task
  // ---------------------------------------------------------------------------

  /** `s.findIndex(t => !t.disabled)`: the first open task, or -1 when none is. */
  function FindOpen(s: seq<Task>): (r: int)
    ensures -1 <= r < |s|
    ensures r == -1 <==> forall k :: 0 <= k < |s| ==> s[k].disabled
    ensures r >= 0 ==> !s[r].disabled && forall k :: 0 <= k < r ==> s[k].disabled
  {
    if s == [] then -1
    else if !s[0].disabled then 0
    else
      var k := FindOpen(s[1..]);
      if k == -1 then -1 else k + 1
  }

  /**
   * The task the focus panel shows: nothing for an empty list (the widget alerts
   * instead), otherwise the first open task, falling back to the first task when
   * every task is completed.
   */
  function FocusIndex(s: seq<Task>): (r: Option<nat>)
    ensures r.None? <==> s == []
    ensures r.Some? ==> r.value < |s|
    ensures r.Some? ==> forall k :: 0 <= k < r.value ==> s[k].disabled
    ensures r.Some? && s[r.value].disabled ==> r.value == 0 && forall k :: 0 <= k < |s| ==> s[k].disabled
    ensures (exists k :: 0 <= k < |s| && !s[k].disabled) ==> r.Some? && !s[r.value].disabled
  {
    if |s| == 0 then None
    else
      var k := FindOpen(s);
      Some(if k == -1 then 0 else k)
  }

  // ---------------------------------------------------------------------------
  // Counting awarded tasks
  // ---------------------------------------------------------------------------

  /** The XP a single task accounts for: one when it has earned it, none otherwise. */
  function Contribution(t: Task): nat {
    if t.xpAwarded then 1 else 0
  }

  /** How many tasks in the list have earned their XP. */
  function AwardedCount(s: seq<Task>): (n: nat)
    ensures n <= |s|
  {
    if s == [] then 0 else AwardedCount(s[..|s| - 1]) + Contribution(s[|s| - 1])
  }

  lemma {:induction false} AwardedCountConcat(a: seq<Task>, b: seq<Task>)
    ensures AwardedCount(a + b) == AwardedCount(a) + AwardedCount(b)
  {
    if b != [] {
      assert (a + b)[..|a + b| - 1] == a + b[..|b| - 1];
      AwardedCountConcat(a, b[..|b| - 1]);
    } else {
      assert a + b == a;
    }
  }

  lemma AwardedCountSingle(t: Task)
    ensures AwardedCount([t]) == Contribution(t)
  {
    assert [t][..0] == [];
  }

  /** The count is the count before `i`, plus task `i`'s, plus the count after it. */
  lemma AwardedCountSplit(s: seq<Task>, i: nat)
    requires i < |s|
    ensures AwardedCount(s) == AwardedCount(s[..i]) + Contribution(s[i]) + AwardedCount(s[i + 1..])
  {
    var a, b := s[..i], s[i + 1..];
    assert s == (a + [s[i]]) + b;
    AwardedCountConcat(a + [s[i]], b);
    AwardedCountConcat(a, [s[i]]);
    AwardedCountSingle(s[i]);
  }

  /** Replacing one task changes the count by that task's contribution only. */
  lemma AwardedCountUpdate(s: seq<Task>, i: nat, t: Task)
    requires i < |s|
    ensures AwardedCount(s[i := t]) + Contribution(s[i]) == AwardedCount(s) + Contribution(t)
  {
    var u := s[i := t];
    AwardedCountSplit(s, i);
    AwardedCountSplit(u, i);
    assert u[..i] == s[..i];
    assert u[i + 1..] == s[i + 1..];
  }

  /** Removing one task lowers the count by that task's contribution. */
  lemma AwardedCountRemoved(s: seq<Task>, i: nat)
    requires i < |s|
    ensures AwardedCount(Removed(s, i)) + Contribution(s[i]) == AwardedCount(s)
  {
    assert Removed(s, i) == s[..i] + s[i + 1..];
    AwardedCountConcat(s[..i], s[i + 1..]);
    AwardedCountSplit(s, i);
  }

  /** Moving a task keeps the count. */
  lemma AwardedCountMoved(s: seq<Task>, i: nat, j: nat)
    requires i < |s| && j < |s|
    ensures AwardedCount(Moved(s, i, j)) == AwardedCount(s)
  {
    var r := Moved(s, i, j);
    AwardedCountRemoved(s, i);
    AwardedCountRemoved(r, j);
  }
}
