/**
  One poll of the calendar (`run`): clear the notified ids when the hour has
  changed, drop the slots already notified this hour, drop the slots outside
  the wanted hours, and record the ids of the slots that are notified
  (`notify_discord`).
*/
module Notify {

  import opened Wrappers
  import opened Lists
  import opened Calendar

  /** An hour of the day, as `datetime.hour` gives it. */
  type Hour = h: int | 0 <= h < 24

  /** One `(from, to)` pair of `hours_wanted`. */
  datatype Window = Window(lo: int, hi: int)

  /** The shipped `hours_wanted`: from 11:00 to 20:00. */
  const DefaultHoursWanted: seq<Window> := [Window(11, 20)]

  /** The `ValueError` of `slots.remove(slot)` when `slot` is no longer in the list. */
  datatype FilterError = NotInList(slot: Slot)

  // ---------------------------------------------------------------------------
  // Window matching. `hourOf` maps epoch milliseconds to the local hour.

  predicate Matches(s: Slot, w: Window, hourOf: int -> Hour)
  {
    hourOf(s.startTime) >= w.lo && hourOf(s.endTime) <= w.hi
  }

  /** How many of the windows the slot fails, i.e. how often the loop removes it. */
  function FailCount(s: Slot, windows: seq<Window>, hourOf: int -> Hour): nat
  {
    if windows == [] then 0
    else FailCount(s, windows[..|windows| - 1], hourOf)
         + (if Matches(s, windows[|windows| - 1], hourOf) then 0 else 1)
  }

  /** A slot that survives the filter: not yet notified and inside every window. */
  predicate Keeps(s: Slot, notified: seq<string>, windows: seq<Window>, hourOf: int -> Hour)
  {
    s.id !in notified && FailCount(s, windows, hourOf) == 0
  }

  /** A slot the loop tries to remove a second time, which raises. */
  predicate Doomed(s: Slot, notified: seq<string>, windows: seq<Window>, hourOf: int -> Hour)
  {
    s.id !in notified && FailCount(s, windows, hourOf) >= 2
  }

  /** The survivors, in order: the reference definition of the filter. */
  function Kept(slots: seq<Slot>, notified: seq<string>, windows: seq<Window>, hourOf: int -> Hour): seq<Slot>
  {
    if slots == [] then []
    else
      var last := slots[|slots| - 1];
      Kept(slots[..|slots| - 1], notified, windows, hourOf)
      + (if Keeps(last, notified, windows, hourOf) then [last] else [])
  }

  /**
    The outcome of the filter loop over `slots`, slot after slot: the loop stops
    with an error at the first doomed slot, and otherwise has kept the survivors.
  */
  function Filtered(slots: seq<Slot>, notified: seq<string>, windows: seq<Window>, hourOf: int -> Hour)
    : Result<seq<Slot>, FilterError>
  {
    if slots == [] then Ok([])
    else
      var last := slots[|slots| - 1];
      match Filtered(slots[..|slots| - 1], notified, windows, hourOf)
      case Err(e) => Err(e)
      case Ok(kept) =>
        if Doomed(last, notified, windows, hourOf) then Err(NotInList(last))
        else if Keeps(last, notified, windows, hourOf) then Ok(kept + [last])
        else Ok(kept)
  }

  // ---------------------------------------------------------------------------
  // The filter loop of `run`

  /**
    The inner loop of `run` for one slot that was not notified: `slots.remove(slot)`
    for every window the slot fails, raising once the slot is gone.
  */
  method RemoveOutsideWindows(remaining: seq<Slot>, slot: Slot, windows: seq<Window>, hourOf: int -> Hour)
    returns (r: Option<seq<Slot>>)
    ensures r == RemoveRepeatedly(remaining, slot, FailCount(slot, windows, hourOf))
  {
    var current := remaining;
    for k := 0 to |windows|
      invariant RemoveRepeatedly(remaining, slot, FailCount(slot, windows[..k], hourOf)) == Some(current)
    {
      assert windows[..k + 1][..k] == windows[..k];
      var startHour := hourOf(slot.startTime);
      var endHour := hourOf(slot.endTime);
      if !(startHour >= windows[k].lo && endHour <= windows[k].hi) {
        var removed := RemoveFirst(current, slot);
        if removed.None? {
          FailCountPrefix(slot, windows, k + 1, hourOf);
          RemoveRepeatedlyStaysFailed(remaining, slot, FailCount(slot, windows[..k + 1], hourOf),
                                      FailCount(slot, windows, hourOf));
          return None;
        }
        current := removed.value;
      }
    }
    assert windows[..|windows|] == windows;
    r := Some(current);
  }

  /** How many times the loop of `run` calls `slots.remove` for the slot `s`. */
  function Removals(s: Slot, notified: seq<string>, windows: seq<Window>, hourOf: int -> Hour): nat
  {
    if s.id in notified then 1 else FailCount(s, windows, hourOf)
  }

  /**
    The loop of `run` over a copy of `slots`: a notified slot is removed and the
    windows are not looked at; otherwise the slot is removed once for every window
    it fails, and removing it when it is already gone raises.
  */
  method FilterSlots(slots: seq<Slot>, notified: seq<string>, windows: seq<Window>, hourOf: int -> Hour)
    returns (r: Result<seq<Slot>, FilterError>)
    ensures Distinct(slots) ==> r == Filtered(slots, notified, windows, hourOf)
  {
    var remaining := slots;
    for i := 0 to |slots|
      invariant Distinct(slots) ==>
                  Filtered(slots[..i], notified, windows, hourOf).Ok? &&
                  remaining == Filtered(slots[..i], notified, windows, hourOf).value + slots[i..]
    {
      var slot := slots[i];
      var removed;
      if slot.id in notified {
        removed := RemoveFirst(remaining, slot);
        assert removed == RemoveRepeatedly(remaining, slot, 1);
      } else {
        removed := RemoveOutsideWindows(remaining, slot, windows, hourOf);
      }
      assert removed == RemoveRepeatedly(remaining, slot, Removals(slot, notified, windows, hourOf));
      if Distinct(slots) {
        FilterStep(slots, i, notified, windows, hourOf);
      }
      if removed.None? {
        return Err(NotInList(slot));
      }
      remaining := removed.value;
    }
    assert slots[..|slots|] == slots && slots[|slots|..] == [];
    if Distinct(slots) {
      var all := Filtered(slots, notified, windows, hourOf);
      assert remaining == all.value + [] == all.value;
    }
    r := Ok(remaining);
  }

  /** One turn of the loop of `FilterSlots`, for a list of distinct slots. */
  lemma FilterStep(slots: seq<Slot>, i: nat, notified: seq<string>, windows: seq<Window>, hourOf: int -> Hour)
    requires i < |slots| && Distinct(slots)
    requires Filtered(slots[..i], notified, windows, hourOf).Ok?
    ensures var done := Filtered(slots[..i], notified, windows, hourOf).value;
            var after := RemoveRepeatedly(done + slots[i..], slots[i], Removals(slots[i], notified, windows, hourOf));
            (after.None? ==> Filtered(slots, notified, windows, hourOf) == Err(NotInList(slots[i]))) &&
            (after.Some? ==> Filtered(slots[..i + 1], notified, windows, hourOf).Ok? &&
                             after.value == Filtered(slots[..i + 1], notified, windows, hourOf).value + slots[i + 1..])
  {
    var slot := slots[i];
    var done := Filtered(slots[..i], notified, windows, hourOf).value;
    var rest := slots[i + 1..];
    var n := Removals(slot, notified, windows, hourOf);
    var prefix := slots[..i + 1];
    assert prefix[..i] == slots[..i] && prefix[i] == slot;
    assert Filtered(prefix, notified, windows, hourOf) ==
           if Doomed(slot, notified, windows, hourOf) then Err(NotInList(slot))
           else if Keeps(slot, notified, windows, hourOf) then Ok(done + [slot])
           else Ok(done);
    assert slots[i..] == [slot] + rest;
    assert done + slots[i..] == done + [slot] + rest;
    FilteredFromPrefix(slots, i, notified, windows, hourOf);
    assert slot !in rest;
    RemoveRepeatedlySingle(done, slot, rest, n);
    if n >= 2 {
      FilteredStopsAt(slots, i + 1, notified, windows, hourOf);
    } else if n == 0 {
      assert (done + [slot]) + rest == done + [slot] + rest;
    }
  }

  // ---------------------------------------------------------------------------
  // What the filter computes

  lemma {:induction false} FailCountPrefix(s: Slot, windows: seq<Window>, k: nat, hourOf: int -> Hour)
    requires k <= |windows|
    ensures FailCount(s, windows[..k], hourOf) <= FailCount(s, windows, hourOf)
    decreases |windows|
  {
    if k < |windows| {
      var n := |windows| - 1;
      assert windows[..n][..k] == windows[..k];
      FailCountPrefix(s, windows[..n], k, hourOf);
    } else {
      assert windows[..k] == windows;
    }
  }

  lemma {:induction false} FailCountBound(s: Slot, windows: seq<Window>, hourOf: int -> Hour)
    ensures FailCount(s, windows, hourOf) <= |windows|
  {
    if windows != [] {
      FailCountBound(s, windows[..|windows| - 1], hourOf);
    }
  }

  /** A slot fails no window exactly when it matches every window. */
  lemma {:induction false} FailCountZero(s: Slot, windows: seq<Window>, hourOf: int -> Hour)
    ensures FailCount(s, windows, hourOf) == 0 <==>
            forall k :: 0 <= k < |windows| ==> Matches(s, windows[k], hourOf)
  {
    if windows != [] {
      var n := |windows| - 1;
      FailCountZero(s, windows[..n], hourOf);
      assert forall k :: 0 <= k < n ==> windows[..n][k] == windows[k];
    }
  }

  /** Every element of an outcome prefix has been processed, so it comes from that prefix. */
  lemma {:induction false} FilteredFromPrefix(slots: seq<Slot>, i: nat, notified: seq<string>,
                                               windows: seq<Window>, hourOf: int -> Hour)
    requires i < |slots| && Distinct(slots)
    requires Filtered(slots[..i], notified, windows, hourOf).Ok?
    ensures slots[i] !in Filtered(slots[..i], notified, windows, hourOf).value
  {
    var done := Filtered(slots[..i], notified, windows, hourOf).value;
    FilteredIsKept(slots[..i], notified, windows, hourOf);
    KeptMembership(slots[..i], notified, windows, hourOf, slots[i]);
  }

  /** Once the loop has raised, the later slots do not change the outcome. */
  lemma {:induction false} FilteredStopsAt(slots: seq<Slot>, n: nat, notified: seq<string>,
                                            windows: seq<Window>, hourOf: int -> Hour)
    requires n <= |slots| && Filtered(slots[..n], notified, windows, hourOf).Err?
    ensures Filtered(slots, notified, windows, hourOf) == Filtered(slots[..n], notified, windows, hourOf)
    decreases |slots|
  {
    if n < |slots| {
      var m := |slots| - 1;
      assert slots[..m][..n] == slots[..n];
      FilteredStopsAt(slots[..m], n, notified, windows, hourOf);
    } else {
      assert slots[..n] == slots;
    }
  }

  /**
    The loop raises exactly when some slot that was not notified fails two
    windows or more.
  */
  lemma {:induction false} FilteredOkIff(slots: seq<Slot>, notified: seq<string>,
                                          windows: seq<Window>, hourOf: int -> Hour)
    ensures Filtered(slots, notified, windows, hourOf).Ok? <==>
            forall i :: 0 <= i < |slots| ==> !Doomed(slots[i], notified, windows, hourOf)
  {
    if slots != [] {
      var n := |slots| - 1;
      FilteredOkIff(slots[..n], notified, windows, hourOf);
      assert forall i :: 0 <= i < n ==> slots[..n][i] == slots[i];
    }
  }

  /** With at most one window configured, as shipped, the loop never raises. */
  lemma SingleWindowNeverRaises(slots: seq<Slot>, notified: seq<string>, windows: seq<Window>, hourOf: int -> Hour)
    requires |windows| <= 1
    ensures Filtered(slots, notified, windows, hourOf).Ok?
  {
    forall i | 0 <= i < |slots| ensures !Doomed(slots[i], notified, windows, hourOf) {
      FailCountBound(slots[i], windows, hourOf);
    }
    FilteredOkIff(slots, notified, windows, hourOf);
  }

  /** The error names the first doomed slot. */
  lemma {:induction false} FilteredErr(slots: seq<Slot>, notified: seq<string>,
                                        windows: seq<Window>, hourOf: int -> Hour)
    requires Filtered(slots, notified, windows, hourOf).Err?
    ensures exists i :: 0 <= i < |slots| && Filtered(slots, notified, windows, hourOf).error == NotInList(slots[i]) &&
                        Doomed(slots[i], notified, windows, hourOf) &&
                        forall j :: 0 <= j < i ==> !Doomed(slots[j], notified, windows, hourOf)
  {
    var n := |slots| - 1;
    var init := slots[..n];
    assert forall j :: 0 <= j < n ==> init[j] == slots[j];
    if Filtered(init, notified, windows, hourOf).Err? {
      FilteredErr(init, notified, windows, hourOf);
      var i :| 0 <= i < |init| && Filtered(init, notified, windows, hourOf).error == NotInList(init[i]) &&
               Doomed(init[i], notified, windows, hourOf) &&
               forall j :: 0 <= j < i ==> !Doomed(init[j], notified, windows, hourOf);
      assert slots[i] == init[i];
    } else {
      FilteredOkIff(init, notified, windows, hourOf);
      assert Doomed(slots[n], notified, windows, hourOf);
    }
  }

  /** When the loop finishes, what is left is exactly the reference survivors. */
  lemma {:induction false} FilteredIsKept(slots: seq<Slot>, notified: seq<string>,
                                          windows: seq<Window>, hourOf: int -> Hour)
    ensures Filtered(slots, notified, windows, hourOf).Ok? ==>
            Filtered(slots, notified, windows, hourOf).value == Kept(slots, notified, windows, hourOf)
  {
    if slots != [] {
      FilteredIsKept(slots[..|slots| - 1], notified, windows, hourOf);
    }
  }

  /**
    A slot survives exactly when it is in the input, its id was not notified,
    and it lies inside every window (all of them, not one of them).
  */
  lemma {:induction false} KeptMembership(slots: seq<Slot>, notified: seq<string>,
                                          windows: seq<Window>, hourOf: int -> Hour, s: Slot)
    ensures s in Kept(slots, notified, windows, hourOf) <==>
            s in slots && s.id !in notified &&
            forall k :: 0 <= k < |windows| ==> Matches(s, windows[k], hourOf)
  {
    FailCountZero(s, windows, hourOf);
    if slots != [] {
      var init := slots[..|slots| - 1];
      KeptMembership(init, notified, windows, hourOf, s);
      assert slots == init + [slots[|slots| - 1]];
    }
  }

  /** The filter only removes: the survivors are in their original order. */
  lemma {:induction false} KeptSubsequence(slots: seq<Slot>, notified: seq<string>,
                                           windows: seq<Window>, hourOf: int -> Hour)
    ensures IsSubsequence(Kept(slots, notified, windows, hourOf), slots)
  {
    if slots != [] {
      var init := slots[..|slots| - 1];
      var last := slots[|slots| - 1];
      KeptSubsequence(init, notified, windows, hourOf);
      var r := Kept(slots, notified, windows, hourOf);
      if Keeps(last, notified, windows, hourOf) {
        assert r[..|r| - 1] == Kept(init, notified, windows, hourOf);
      } else {
        assert r == Kept(init, notified, windows, hourOf);
      }
    }
  }

  /** With the shipped window, a 09:00-10:00 slot is dropped and an 11:00-13:00 slot is kept. */
  lemma DefaultWindowExample(early: Slot, midday: Slot, hourOf: int -> Hour)
    requires hourOf(early.startTime) == 9 && hourOf(early.endTime) == 10
    requires hourOf(midday.startTime) == 11 && hourOf(midday.endTime) == 13
    ensures Filtered([early, midday], [], DefaultHoursWanted, hourOf) == Ok([midday])
  {
    assert DefaultHoursWanted[..0] == [];
    assert FailCount(early, DefaultHoursWanted, hourOf) == 1;
    assert FailCount(midday, DefaultHoursWanted, hourOf) == 0;
    assert [early, midday][..1] == [early] && [early][..0] == [];
    assert Filtered([early], [], DefaultHoursWanted, hourOf) == Ok([]);
    assert Keeps(midday, [], DefaultHoursWanted, hourOf);
    assert !Doomed(midday, [], DefaultHoursWanted, hourOf);
    assert [early, midday][1] == midday;
    assert Filtered([early, midday], [], DefaultHoursWanted, hourOf)
        == Ok(Filtered([early], [], DefaultHoursWanted, hourOf).value + [midday]);
    assert [] + [midday] == [midday];
  }

  /**
    With two windows that do not overlap (the shape of the example in the
    configuration comment, `[(10, 12), (15, 17)]`), no slot that ends at an hour at
    or after its start hour is ever kept, and a non-notified slot outside both
    windows makes the loop raise.
  */
  lemma SeparateWindowsKeepNothing(slots: seq<Slot>, notified: seq<string>, w1: Window, w2: Window,
                                   hourOf: int -> Hour, s: Slot)
    requires w1.hi < w2.lo
    requires hourOf(s.startTime) <= hourOf(s.endTime)
    ensures s !in Kept(slots, notified, [w1, w2], hourOf)
    ensures s in slots && s.id !in notified && !Matches(s, w1, hourOf) && !Matches(s, w2, hourOf) ==>
            Filtered(slots, notified, [w1, w2], hourOf).Err?
  {
    var windows := [w1, w2];
    KeptMembership(slots, notified, windows, hourOf, s);
    assert !(Matches(s, windows[0], hourOf) && Matches(s, windows[1], hourOf));
    FilteredOkIff(slots, notified, windows, hourOf);
    if s in slots && s.id !in notified && !Matches(s, w1, hourOf) && !Matches(s, w2, hourOf) {
      assert windows[..1] == [w1] && [w1][..0] == [];
      var i :| 0 <= i < |slots| && slots[i] == s;
      assert Doomed(slots[i], notified, windows, hourOf);
    }
  }

  // ---------------------------------------------------------------------------
  // The reading of the configuration comment: a slot is wanted when it lies in
  // at least one of the windows.

  /** The survivors under the alternative reading: not yet notified and inside some window. */
  function KeptAny(slots: seq<Slot>, notified: seq<string>, windows: seq<Window>, hourOf: int -> Hour): seq<Slot>
  {
    if slots == [] then []
    else
      var last := slots[|slots| - 1];
      KeptAny(slots[..|slots| - 1], notified, windows, hourOf)
      + (if last.id !in notified && exists k :: 0 <= k < |windows| && Matches(last, windows[k], hourOf)
         then [last] else [])
  }

  /** Under the alternative reading a slot survives exactly when it lies in one of the windows. */
  lemma {:induction false} KeptAnyMembership(slots: seq<Slot>, notified: seq<string>,
                                             windows: seq<Window>, hourOf: int -> Hour, s: Slot)
    ensures s in KeptAny(slots, notified, windows, hourOf) <==>
            s in slots && s.id !in notified &&
            exists k :: 0 <= k < |windows| && Matches(s, windows[k], hourOf)
  {
    if slots != [] {
      var init := slots[..|slots| - 1];
      KeptAnyMembership(init, notified, windows, hourOf, s);
      assert slots == init + [slots[|slots| - 1]];
    }
  }

  /** With exactly one window, as shipped, both readings keep the same slots in the same order. */
  lemma {:induction false} OneWindowSameFilter(slots: seq<Slot>, notified: seq<string>,
                                               w: Window, hourOf: int -> Hour)
    ensures Kept(slots, notified, [w], hourOf) == KeptAny(slots, notified, [w], hourOf)
  {
    if slots != [] {
      var last := slots[|slots| - 1];
      OneWindowSameFilter(slots[..|slots| - 1], notified, w, hourOf);
      FailCountZero(last, [w], hourOf);
      assert (exists k :: 0 <= k < |[w]| && Matches(last, [w][k], hourOf)) <==> Matches(last, w, hourOf);
    }
  }

  /**
    With the windows of the configuration comment, `[(10, 12), (15, 17)]`, a
    10:00-12:00 slot fails the second window and the loop drops it, although
    it lies in the first window and the alternative reading keeps it.
  */
  lemma AndWindowsDropsSlot(s: Slot, hourOf: int -> Hour)
    requires hourOf(s.startTime) == 10 && hourOf(s.endTime) == 12
    ensures Filtered([s], [], [Window(10, 12), Window(15, 17)], hourOf) == Ok([])
    ensures KeptAny([s], [], [Window(10, 12), Window(15, 17)], hourOf) == [s]
  {
    var windows := [Window(10, 12), Window(15, 17)];
    assert windows[..1] == [Window(10, 12)] && windows[..1][..0] == [];
    assert FailCount(s, [Window(10, 12)], hourOf) == 0;
    assert !Matches(s, windows[1], hourOf);
    assert FailCount(s, windows, hourOf) == FailCount(s, windows[..1], hourOf) + 1 == 1;
    assert [s][..0] == [];
    assert Matches(s, windows[0], hourOf);
  }

  // ---------------------------------------------------------------------------
  // The notified ids

  /** The ids of `slots`, in order. */
  function Ids(slots: seq<Slot>): (r: seq<string>)
    ensures |r| == |slots| && forall i :: 0 <= i < |slots| ==> r[i] == slots[i].id
  {
    if slots == [] then [] else Ids(slots[..|slots| - 1]) + [slots[|slots| - 1].id]
  }

  /**
    A slot notified in one poll is dropped by every later poll of the same hour,
    whatever the later snapshot and however many times the slot reappears in it.
  */
  lemma NotifiedNotRepeated(kept: seq<Slot>, before: seq<string>, later: seq<Slot>,
                            windows: seq<Window>, hourOf: int -> Hour, s: Slot)
    requires s in kept
    ensures s !in Kept(later, before + Ids(kept), windows, hourOf)
    ensures Filtered(later, before + Ids(kept), windows, hourOf).Ok? ==>
            s !in Filtered(later, before + Ids(kept), windows, hourOf).value
  {
  }

  // ---------------------------------------------------------------------------
  // The state kept between polls

  /** The two module globals of the script and its `hours_wanted` setting. */
  class PollState {
    const hoursWanted: seq<Window>
    var notifHour: Hour
    var notified: seq<string>

    /** The globals at start-up: the current hour and no notified slot. */
    constructor (hoursWanted: seq<Window>, startHour: Hour)
      ensures this.hoursWanted == hoursWanted
      ensures notifHour == startHour && notified == []
    {
      this.hoursWanted := hoursWanted;
      notifHour := startHour;
      notified := [];
    }

    /** What `notified` becomes once the hour check of a poll at `currentHour` has run. */
    function AfterReset(currentHour: Hour): seq<string>
      reads this
    {
      if notifHour != currentHour then [] else notified
    }

    /** The hour check of `run`: a new hour forgets every notified id. */
    method ResetHour(currentHour: Hour)
      modifies this
      ensures notifHour == currentHour
      ensures notified == old(AfterReset(currentHour))
      ensures old(notifHour) != currentHour ==> notified == []
      ensures old(notifHour) == currentHour ==> notified == old(notified)
    {
      if notifHour != currentHour {
        notified := [];
        notifHour := currentHour;
      }
    }

    /** The id recording of `notify_discord`: every slot's id is appended, nothing is removed. */
    method RecordNotified(slots: seq<Slot>)
      modifies this
      ensures notifHour == old(notifHour)
      ensures notified == old(notified) + Ids(slots)
    {
      for i := 0 to |slots|
        invariant notifHour == old(notifHour)
        invariant notified == old(notified) + Ids(slots[..i])
      {
        assert slots[..i + 1][..i] == slots[..i];
        notified := notified + [slots[i].id];
      }
      assert slots[..|slots|] == slots;
    }

    /**
      `run` on a fetched snapshot: extract the free slots, apply the hour check,
      filter, and record the survivors as notified. The hour check happens before
      the filter, so the filter sees the reset list. On the error the filter
      raises, the reset has happened and nothing is recorded.
    */
    method Poll(calendar: Snapshot, currentHour: Hour, hourOf: int -> Hour)
      returns (r: Result<seq<Slot>, FilterError>)
      modifies this
      ensures notifHour == currentHour
      ensures Distinct(FreeSlots(calendar.days)) ==>
                r == Filtered(FreeSlots(calendar.days), old(AfterReset(currentHour)), hoursWanted, hourOf)
      ensures r.Ok? ==> notified == old(AfterReset(currentHour)) + Ids(r.value)
      ensures r.Err? ==> notified == old(AfterReset(currentHour))
    {
      var free := FindFreeSlots(calendar);
      ResetHour(currentHour);
      r := FilterSlots(free, notified, hoursWanted, hourOf);
      if r.Ok? && |r.value| > 0 {
        RecordNotified(r.value);
      }
    }
  }

  /**
    The three polling scenarios of an 11:00-13:00 slot "A" against the shipped
    window: notified on the first poll, not again on a re-scan in the same hour,
    and notified again once the hour has changed.
  */
  method RescanScenario(hourOf: int -> Hour, h: Hour, later: Hour) returns (first: Result<seq<Slot>, FilterError>,
                                                                    second: Result<seq<Slot>, FilterError>,
                                                                    third: Result<seq<Slot>, FilterError>)
    requires hourOf(0) == 11 && hourOf(7200000) == 13 && later != h
    ensures first == Ok([Slot("A", 0, 7200000, AVAILABLE, "x1")])
    ensures second == Ok([])
    ensures third == first
  {
    var a := Slot("A", 0, 7200000, AVAILABLE, "x1");
    var calendar := Snapshot([Day(AVAILABLE, [Zone([a])])]);
    assert FreeSlots(calendar.days) == [a] by {
      assert calendar.days[..0] == [] && [Zone([a])][..0] == [] && [a][..0] == [];
      assert AvailableSlots([a]) == [a];
      assert ZonesAvailable([Zone([a])]) == [a];
      assert DayFree(calendar.days[0]) == [a];
    }
    assert Distinct([a]);
    assert DefaultHoursWanted[..0] == [] && [a][..0] == [];
    assert FailCount(a, DefaultHoursWanted, hourOf) == 0;
    assert Filtered([a], [], DefaultHoursWanted, hourOf) == Ok([a]);
    assert Filtered([a], ["A"], DefaultHoursWanted, hourOf) == Ok([]);
    var state := new PollState(DefaultHoursWanted, h);
    first := state.Poll(calendar, h, hourOf);
    second := state.Poll(calendar, h, hourOf);
    third := state.Poll(calendar, later, hourOf);
  }
}
