/** Debounced power state of a TV polled over ADB (services/hisense_tv_client.py). */
module TvPower {
  import opened Prelude

  const OFF_STREAK_THRESHOLD := 3
  const ADB_POLL_RETRIES := 1

  datatype Power = Unknown | Off | On

  /** The debouncer's fields. */
  datatype Hysteresis = Hysteresis(power: Power, offStreak: nat)

  const START := Hysteresis(Unknown, 0)

  function Step(s: Hysteresis, on: bool): Hysteresis {
    if on then Hysteresis(On, 0)
    else if s.power == On && s.offStreak + 1 < OFF_STREAK_THRESHOLD then Hysteresis(On, s.offStreak + 1)
    else Hysteresis(Off, s.offStreak + 1)
  }

  function Run(seen: seq<bool>): Hysteresis {
    if seen == [] then START else Step(Run(Init(seen)), Last(seen))
  }

  /** The states announced to the change callback, oldest first. */
  function Announced(seen: seq<bool>): seq<Power> {
    if seen == [] then []
    else if Run(seen).power != Run(Init(seen)).power then Announced(Init(seen)) + [Run(seen).power]
    else Announced(Init(seen))
  }

  /** How many observations in a row, up to the last, were OFF. */
  function TrailingOff(seen: seq<bool>): (n: nat)
    ensures n <= |seen|
    ensures forall i :: |seen| - n <= i < |seen| ==> !seen[i]
    ensures n < |seen| ==> seen[|seen| - n - 1]
  {
    if seen == [] || Last(seen) then 0 else TrailingOff(Init(seen)) + 1
  }

  lemma {:induction false} StreakIsTrailingOff(seen: seq<bool>)
    ensures Run(seen).offStreak == TrailingOff(seen)
    ensures seen != [] ==>
              Run(seen).power == if TrailingOff(seen) < OFF_STREAK_THRESHOLD && TrailingOff(seen) < |seen| then On else Off
  {
    if seen != [] {
      StreakIsTrailingOff(Init(seen));
    }
  }

  /** Whatever came before, the state is ON exactly when one of the last three observations was. */
  lemma OnExactlyWhenRecentlySeenOn(seen: seq<bool>)
    requires seen != []
    ensures Run(seen).power == On <==> exists i :: 0 <= i < |seen| && |seen| - 3 <= i && seen[i]
    ensures Run(seen).power == Off <==> forall i :: 0 <= i < |seen| && |seen| - 3 <= i ==> !seen[i]
  {
    StreakIsTrailingOff(seen);
    var n := TrailingOff(seen);
    if n < |seen| && n < 3 {
      assert seen[|seen| - n - 1];
    }
  }

  /** Announcements alternate and end with the current state. */
  lemma {:induction false} AnnouncementsAlternate(seen: seq<bool>)
    ensures forall i :: 0 < i < |Announced(seen)| ==> Announced(seen)[i] != Announced(seen)[i - 1]
    ensures forall i :: 0 <= i < |Announced(seen)| ==> Announced(seen)[i] != Unknown
    ensures Run(seen).power == if Announced(seen) == [] then Unknown else Last(Announced(seen))
  {
    if seen != [] {
      AnnouncementsAlternate(Init(seen));
    }
  }

  /** k announcements take at least 2k - 3 observations. */
  lemma {:induction false} AnnouncementsAreBounded(seen: seq<bool>)
    ensures var k, s := |Announced(seen)|, Run(seen);
            && 2 * k <= |seen| + 3
            && (s.power == On ==> 2 * k + s.offStreak <= |seen| + 3 && s.offStreak < OFF_STREAK_THRESHOLD)
            && (s.power == Off ==> 2 * k <= |seen| + 2)
            && (s.power == Unknown <==> seen == [])
  {
    if seen != [] {
      AnnouncementsAreBounded(Init(seen));
    }
  }

  /** One OFF and one ON, then n rounds of three OFFs and an ON. */
  function Flapping(n: nat): seq<bool> {
    if n == 0 then [false, true] else Flapping(n - 1) + [false] + [false] + [false] + [true]
  }

  /** The bound is attained: these 4n + 2 observations cause 2n + 2 announcements. */
  lemma {:induction false} AnnouncementBoundIsTight(n: nat)
    ensures |Flapping(n)| == 4 * n + 2 && |Announced(Flapping(n))| == 2 * n + 2
    ensures Run(Flapping(n)) == Hysteresis(On, 0)
  {
    if n == 0 {
      assert Init([false, true]) == [false] && Init([false]) == [];
      assert Announced([false]) == [Off];
    } else {
      AnnouncementBoundIsTight(n - 1);
      var a := Flapping(n - 1);
      InitSnoc(a, false);
      InitSnoc(a + [false], false);
      InitSnoc(a + [false] + [false], false);
      InitSnoc(a + [false] + [false] + [false], true);
      assert |Announced(a + [false])| == 2 * n;
      assert |Announced(a + [false] + [false])| == 2 * n;
      assert |Announced(a + [false] + [false] + [false])| == 2 * n + 1;
    }
  }

  lemma OneMoreSeen(seen: seq<bool>, on: bool)
    ensures Run(seen + [on]) == Step(Run(seen), on) && Last(seen + [on]) == on
    ensures Announced(seen + [on]) ==
            if Step(Run(seen), on).power != Run(seen).power then Announced(seen) + [Step(Run(seen), on).power]
            else Announced(seen)
  {
    InitSnoc(seen, on);
  }

  // ----- The client -----

  /** What one dumpsys call printed; None when the subprocess failed. */
  datatype Shown = StateOn | StateOff | StateDoze | Unparseable

  /** The observation counts as ON: the TV is reachable and the first answer within the retry shows ON. */
  predicate SeenOn(connected: bool, connects: bool, output: nat -> Option<Shown>) {
    (connected || connects) && (output(0) == Some(StateOn) || (output(0).None? && output(1) == Some(StateOn)))
  }

  /** What a poll makes of the answers: an unreachable TV, one asleep, dozing or unreadable at its first answer, and one
      that fails to answer twice, all count as OFF; only a first answer of ON counts as ON. */
  lemma ObservationsByAnswer(connected: bool, connects: bool, output: nat -> Option<Shown>)
    ensures !connected && !connects ==> !SeenOn(connected, connects, output)
    ensures output(0) in {Some(StateOff), Some(StateDoze), Some(Unparseable)} ==> !SeenOn(connected, connects, output)
    ensures output(0) == None && output(1) in {None, Some(StateOff), Some(StateDoze), Some(Unparseable)} ==>
              !SeenOn(connected, connects, output)
    ensures connected || connects ==> (output(0) == Some(StateOn) ==> SeenOn(connected, connects, output))
    ensures connected || connects ==> (output(0) == None && output(1) == Some(StateOn) ==> SeenOn(connected, connects, output))
  {
  }

  class TvClient {
    var power: Power
    var offStreak: nat
    var lastObservation: Power
    var connected: bool
    ghost var seen: seq<bool>
    ghost var announced: seq<Power>

    /** The fields are what the observations so far make of them, and each change was announced once. */
    ghost predicate Valid()
      reads this
    {
      && Hysteresis(power, offStreak) == Run(seen) && announced == Announced(seen)
      && lastObservation == if seen == [] then Unknown else if Last(seen) then On else Off
    }

    constructor ()
      ensures Valid() && seen == [] && !connected
    {
      power, offStreak, lastObservation, connected := Unknown, 0, Unknown, false;
      seen, announced := [], [];
    }

    method ObservePower(connects: bool, output: nat -> Option<Shown>) returns (on: bool)
      modifies this`connected
      ensures on == SeenOn(old(connected), connects, output)
      ensures on ==> (old(connected) || connects) && (output(0) == Some(StateOn) || output(1) == Some(StateOn))
      ensures output(0) in {Some(StateOff), Some(StateDoze), Some(Unparseable)} ==> !on
      ensures connected == ((old(connected) || connects) && (output(0).Some? || output(1).Some?))
    {
      if !connected {
        if !connects {
          return false;
        }
        connected := true;
      }
      for attempt := 0 to 1 + ADB_POLL_RETRIES
        invariant attempt >= 1 ==> output(0).None?
        invariant attempt >= 2 ==> output(1).None?
        invariant connected
      {
        var shown := output(attempt);
        if shown.Some? {
          assert attempt == 0 || attempt == 1;
          return shown.value == StateOn;
        }
      }
      connected := false;
      on := false;
    }

    method UpdatePowerState(next: Power)
      modifies this`power, this`announced
      ensures power == next && announced == if next == old(power) then old(announced) else old(announced) + [next]
    {
      if next == power {
        return;
      }
      power := next;
      announced := announced + [next];
    }

    method PollPower(connects: bool, output: nat -> Option<Shown>) returns (debounced: Power)
      requires Valid()
      modifies this
      ensures Valid() && seen == old(seen) + [SeenOn(old(connected), connects, output)]
      ensures debounced == power
      ensures connected == ((old(connected) || connects) && (output(0).Some? || output(1).Some?))
    {
      var on := ObservePower(connects, output);
      debounced := Debounce(on);
    }

    /** The hysteresis: ON at once, OFF only after a streak. */
    method Debounce(on: bool) returns (debounced: Power)
      requires Valid()
      modifies this`power, this`offStreak, this`lastObservation, this`seen, this`announced
      ensures Valid() && seen == old(seen) + [on] && debounced == power
    {
      lastObservation := if on then On else Off;
      OneMoreSeen(seen, on);
      seen := seen + [on];
      if on {
        offStreak := 0;
        UpdatePowerState(On);
        return On;
      }
      offStreak := offStreak + 1;
      if power == Off {
        return Off;
      }
      if power == Unknown {
        UpdatePowerState(Off);
        return Off;
      }
      if offStreak < OFF_STREAK_THRESHOLD {
        return On;
      }
      UpdatePowerState(Off);
      return Off;
    }
  }
}
