/**
 * The focus panel's countdown: its state (seconds remaining, running or not), the
 * start/tick/pause/stop transitions, and the MM:SS text it shows.
 */
module Focus {
  import opened Wrappers
  import opened Text
  import opened Tasks

  const DefaultMinutes: nat := 25
  const MaxMinutes: nat := 180
  const DefaultSeconds: nat := DefaultMinutes * 60

  /** `focusRemaining` and `focusRunning`. */
  datatype Clock = Clock(remaining: int, running: bool)

  /** The timer's invariant: between zero and the longest session. */
  predicate InRange(c: Clock) {
    0 <= c.remaining <= MaxMinutes * 60
  }

  // ---------------------------------------------------------------------------
  // Transitions
  // ---------------------------------------------------------------------------

  /**
   * The session length in minutes for the parsed duration field: the value when it is
   * a positive number, capped at 180; 25 when it did not parse or is not positive.
   */
  function SessionMinutes(v: Option<int>): (m: nat)
    ensures 1 <= m <= MaxMinutes
    ensures v.Some? && 1 <= v.value <= MaxMinutes ==> m == v.value
    ensures v.Some? && v.value > MaxMinutes ==> m == MaxMinutes
    ensures v.None? || v.value <= 0 ==> m == DefaultMinutes
  {
    if v.Some? && v.value > 0 then (if v.value < MaxMinutes then v.value else MaxMinutes)
    else DefaultMinutes
  }

  /** Start: ignored while running; otherwise a fresh session of the chosen length. */
  function Started(c: Clock, v: Option<int>): (r: Clock)
    ensures c.running ==> r == c
    ensures !c.running ==> r.running && r.remaining == SessionMinutes(v) * 60
    ensures InRange(c) ==> InRange(r)
  {
    if c.running then c else Clock(SessionMinutes(v) * 60, true)
  }

  /** One firing of the interval: stop at zero, otherwise count one second down. */
  function Ticked(c: Clock): (r: Clock)
    ensures c.remaining <= 0 ==> r == c.(running := false)
    ensures c.remaining > 0 ==> r.remaining + 1 == c.remaining && r.running == c.running
    ensures c.remaining >= 0 ==> 0 <= r.remaining <= c.remaining
  {
    if c.remaining <= 0 then c.(running := false) else c.(remaining := c.remaining - 1)
  }

  /** Pause: ignored while not running; keeps the remaining time. */
  function Paused(c: Clock): (r: Clock)
    ensures r.remaining == c.remaining && !r.running
  {
    if !c.running then c else c.(running := false)
  }

  /** The clock after `n` firings of the interval. */
  function Ticks(c: Clock, n: nat): Clock
  {
    if n == 0 then c else Ticked(Ticks(c, n - 1))
  }

  /** No sequence of ticks takes the timer out of range; in particular it never goes negative. */
  lemma {:induction false} TicksStayInRange(c: Clock, n: nat)
    requires InRange(c)
    ensures InRange(Ticks(c, n))
    ensures Ticks(c, n).remaining <= c.remaining
  {
    if n > 0 {
      TicksStayInRange(c, n - 1);
    }
  }

  /** A running timer counts down one second per tick until it reaches zero. */
  lemma {:induction false} TicksCountDown(c: Clock, k: nat)
    requires c.running && k <= c.remaining
    ensures Ticks(c, k) == Clock(c.remaining - k, true)
  {
    if k > 0 {
      TicksCountDown(c, k - 1);
    }
  }

  /**
   * A session started from a stopped timer runs exactly its length in seconds, still
   * running at zero; the next tick ends it (the "complete" alert). After that, ticks
   * change nothing.
   */
  lemma SessionCompletes(c: Clock, v: Option<int>, extra: nat)
    requires !c.running
    ensures var s := SessionMinutes(v) * 60;
            Ticks(Started(c, v), s) == Clock(0, true)
            && Ticks(Started(c, v), s + 1 + extra) == Clock(0, false)
  {
    var s := SessionMinutes(v) * 60;
    var c0 := Started(c, v);
    TicksCountDown(c0, s);
    AfterZeroNothingChanges(extra);
    TicksCompose(c0, s + 1, extra);
  }

  lemma {:induction false} TicksCompose(c: Clock, m: nat, n: nat)
    ensures Ticks(c, m + n) == Ticks(Ticks(c, m), n)
  {
    if n > 0 {
      TicksCompose(c, m, n - 1);
    }
  }

  lemma {:induction false} AfterZeroNothingChanges(n: nat)
    ensures Ticks(Clock(0, false), n) == Clock(0, false)
  {
    if n > 0 {
      AfterZeroNothingChanges(n - 1);
    }
  }

  /**
   * There is no resume: pausing a session and pressing start again begins a full new
   * session of the chosen length, whatever was left.
   */
  lemma StartAfterPauseRestarts(c: Clock, v: Option<int>)
    requires c.running
    ensures Started(Paused(c), v) == Clock(SessionMinutes(v) * 60, true)
  {
  }

  // ---------------------------------------------------------------------------
  // The MM:SS display
  // ---------------------------------------------------------------------------

  /** The timer text: zero-padded whole minutes, a colon, zero-padded seconds. */
  function Display(remaining: nat): (d: string)
    ensures |d| >= 5 && d[|d| - 3] == ':'
  {
    var m := PadStart2(DecimalString(remaining / 60));
    var s := PadStart2(DecimalString(remaining % 60));
    DecimalLength(remaining % 60);
    m + ":" + s
  }

  lemma DecimalLength(n: nat)
    ensures n < 10 ==> |DecimalString(n)| == 1
    ensures n < 100 ==> |DecimalString(n)| <= 2
    ensures n < 1000 ==> |DecimalString(n)| <= 3
  {
    if n >= 10 {
      DecimalLength(n / 10);
    }
  }

  /** The part of a clock text before its last three characters: the minutes. */
  function MinutesField(d: string): string {
    if |d| >= 3 then d[..|d| - 3] else []
  }

  /** The last two characters of a clock text: the seconds. */
  function SecondsField(d: string): string {
    if |d| >= 2 then d[|d| - 2..] else []
  }

  /** Reads a clock text back into seconds: digits, a colon, then exactly two digits. */
  function ParseClock(d: string): Option<nat>
  {
    if |d| >= 4 && d[|d| - 3] == ':' && AllDigits(MinutesField(d)) && AllDigits(SecondsField(d))
    then Some(DigitsValue(MinutesField(d)) * 60 + DigitsValue(SecondsField(d)))
    else None
  }

  /**
   * A clock text built from a minutes field and a two-digit seconds field splits back
   * into those fields at the colon.
   */
  lemma ClockTextFields(d: string, m: string, sec: string)
    requires d == m + ":" + sec && |sec| == 2
    ensures MinutesField(d) == m && SecondsField(d) == sec
  {
    assert d[..|d| - 3] == m;
    assert d[|d| - 2..] == sec;
  }

  /** Both padded fields are digit strings reading back as their numbers; the seconds field has two digits. */
  lemma PaddedFields(q: nat, r: nat)
    requires r < 60
    ensures var m := PadStart2(DecimalString(q));
            AllDigits(m) && DigitsValue(m) == q
    ensures var sec := PadStart2(DecimalString(r));
            |sec| == 2 && AllDigits(sec) && DigitsValue(sec) == r
  {
    DecimalLength(r);
    PaddedReadsBack(q);
    PaddedReadsBack(r);
  }

  /**
   * The field before the colon is the whole minutes and the two digits after it are
   * the seconds left over, each written in decimal.
   */
  lemma DisplayFields(remaining: nat)
    ensures AllDigits(MinutesField(Display(remaining)))
    ensures DigitsValue(MinutesField(Display(remaining))) == remaining / 60
    ensures AllDigits(SecondsField(Display(remaining)))
    ensures DigitsValue(SecondsField(Display(remaining))) == remaining % 60
  {
    var q, r := remaining / 60, remaining % 60;
    PaddedFields(q, r);
    ClockTextFields(Display(remaining), PadStart2(DecimalString(q)), PadStart2(DecimalString(r)));
  }

  /** The display names the remaining time unambiguously: reading it back gives it. */
  lemma DisplayReadsBack(remaining: nat)
    ensures ParseClock(Display(remaining)) == Some(remaining)
  {
    DisplayFields(remaining);
  }

  /** Two different remaining times never show the same text. */
  lemma DisplayInjective(a: nat, b: nat)
    requires Display(a) == Display(b)
    ensures a == b
  {
    DisplayReadsBack(a);
    DisplayReadsBack(b);
  }

  /** Below 100 minutes the text is exactly MM:SS; the longest session shows three minute digits. */
  lemma DisplayWidth(remaining: nat)
    ensures remaining < 100 * 60 ==> |Display(remaining)| == 5
    ensures remaining <= MaxMinutes * 60 ==> |Display(remaining)| <= 6
  {
    DecimalLength(remaining / 60);
    DecimalLength(remaining % 60);
  }

  // ---------------------------------------------------------------------------
  // The timer object
  // ---------------------------------------------------------------------------

  class FocusTimer {
    var remaining: int
    var running: bool

    function State(): Clock
      reads this
    {
      Clock(remaining, running)
    }

    ghost predicate Valid()
      reads this
    {
      InRange(State())
    }

    /** Page load: 25 minutes, not running. */
    constructor ()
      ensures Valid() && State() == Clock(DefaultSeconds, false)
    {
      remaining := DefaultSeconds;
      running := false;
    }

    /**
     * Opening the focus panel: with no tasks nothing happens (the user is alerted);
     * otherwise the panel shows the chosen task and the timer is reset to 25 minutes,
     * not running.
     */
    method OpenFocusMode(todo: seq<Task>) returns (focus: Option<nat>)
      requires Valid()
      modifies this
      ensures Valid()
      ensures focus == FocusIndex(todo)
      ensures focus.None? ==> State() == old(State())
      ensures focus.Some? ==> State() == Clock(DefaultSeconds, false)
    {
      focus := FocusIndex(todo);
      if focus.None? {
        return;
      }
      remaining := DefaultSeconds;
      running := false;
    }

    /** The Start button, with the parsed content of the minutes field. */
    method StartFocusTimer(minutes: Option<int>)
      requires Valid()
      modifies this
      ensures Valid()
      ensures State() == Started(old(State()), minutes)
    {
      if running {
        return;
      }
      var m := DefaultMinutes;
      if minutes.Some? && minutes.value > 0 {
        m := if minutes.value < MaxMinutes then minutes.value else MaxMinutes;
      }
      remaining := m * 60;
      running := true;
    }

    /** One firing of the one-second interval; `completed` is the "Pomodoro complete!" alert. */
    method Tick() returns (completed: bool)
      requires Valid()
      modifies this
      ensures Valid()
      ensures completed <==> old(remaining) <= 0
      ensures State() == Ticked(old(State()))
    {
      if remaining <= 0 {
        running := false;
        return true;
      }
      remaining := remaining - 1;
      completed := false;
    }

    /** The Pause button: stops the interval, keeps the remaining time. */
    method PauseFocusTimer()
      requires Valid()
      modifies this
      ensures Valid()
      ensures State() == Paused(old(State()))
    {
      if !running {
        return;
      }
      running := false;
    }

    /** The Stop button: stops the interval and resets to 25 minutes. */
    method StopFocusTimer()
      requires Valid()
      modifies this
      ensures Valid()
      ensures State() == Clock(DefaultSeconds, false)
    {
      running := false;
      remaining := DefaultSeconds;
    }

    /** The Exit button: hides the panel and stops the timer. */
    method CloseFocusMode()
      requires Valid()
      modifies this
      ensures Valid()
      ensures State() == Clock(DefaultSeconds, false)
    {
      StopFocusTimer();
    }

    /** The text the timer element shows for the current state. */
    method DisplayText() returns (text: string)
      requires Valid()
      ensures ParseClock(text) == Some(remaining)
      ensures text == Display(remaining)
    {
      text := Display(remaining);
      DisplayReadsBack(remaining);
    }
  }
}
