/**
  The calendar snapshot returned by the scheduling endpoint and its flattening
  into the list of free slots (`find_free_slots`).
*/
module Calendar {

  import opened Lists

  /** The status string the provider uses for an open day or an open slot. */
  const AVAILABLE: string := "AVAILABLE"

  /** A work slot; times are epoch milliseconds, `multiplier` is `tags.label`. */
  datatype Slot = Slot(id: string, startTime: int, endTime: int, status: string, multiplier: string)

  /** One entry of a day's `zonesSchedule`. */
  datatype Zone = Zone(slots: seq<Slot>)

  datatype Day = Day(status: string, zonesSchedule: seq<Zone>)

  datatype Snapshot = Snapshot(days: seq<Day>)

  // ---------------------------------------------------------------------------
  // Specification: each function recurses on the last element, so it appends
  // in the order the extractor's loops run.

  /** The open slots of one zone, in order. */
  function AvailableSlots(slots: seq<Slot>): seq<Slot>
  {
    if slots == [] then []
    else
      var last := slots[|slots| - 1];
      AvailableSlots(slots[..|slots| - 1]) + (if last.status == AVAILABLE then [last] else [])
  }

  /** The open slots of a sequence of zones, zone after zone. */
  function ZonesAvailable(zones: seq<Zone>): seq<Slot>
  {
    if zones == [] then []
    else ZonesAvailable(zones[..|zones| - 1]) + AvailableSlots(zones[|zones| - 1].slots)
  }

  /** What one day contributes: nothing unless the day itself is open. */
  function DayFree(day: Day): seq<Slot>
  {
    if day.status == AVAILABLE then ZonesAvailable(day.zonesSchedule) else []
  }

  /** The free slots of a sequence of days, day after day. */
  function FreeSlots(days: seq<Day>): seq<Slot>
  {
    if days == [] then []
    else FreeSlots(days[..|days| - 1]) + DayFree(days[|days| - 1])
  }

  /** Every slot of a sequence of zones, whatever its status. */
  function ZonesAll(zones: seq<Zone>): seq<Slot>
  {
    if zones == [] then []
    else ZonesAll(zones[..|zones| - 1]) + zones[|zones| - 1].slots
  }

  /** The day -> zone -> slot flattening of the whole snapshot, whatever the statuses. */
  function AllSlots(days: seq<Day>): seq<Slot>
  {
    if days == [] then []
    else AllSlots(days[..|days| - 1]) + ZonesAll(days[|days| - 1].zonesSchedule)
  }

  // ---------------------------------------------------------------------------
  // The extractor

  /** The innermost loop of `find_free_slots`: append the open slots of one zone to `free`. */
  method AppendZone(free: seq<Slot>, slots: seq<Slot>) returns (out: seq<Slot>)
    ensures out == free + AvailableSlots(slots)
  {
    out := free;
    for k := 0 to |slots|
      invariant out == free + AvailableSlots(slots[..k])
    {
      assert slots[..k + 1][..k] == slots[..k];
      if slots[k].status == AVAILABLE {
        out := out + [slots[k]];
      }
    }
    assert slots[..|slots|] == slots;
  }

  /** The middle loop of `find_free_slots`: append the open slots of a day's zones to `free`. */
  method AppendZones(free: seq<Slot>, zones: seq<Zone>) returns (out: seq<Slot>)
    ensures out == free + ZonesAvailable(zones)
  {
    out := free;
    for z := 0 to |zones|
      invariant out == free + ZonesAvailable(zones[..z])
    {
      assert zones[..z + 1][..z] == zones[..z];
      out := AppendZone(out, zones[z].slots);
      assert out == free + (ZonesAvailable(zones[..z]) + AvailableSlots(zones[z].slots));
    }
    assert zones[..|zones|] == zones;
  }

  /** `find_free_slots`: walk the days, and within every open day its zones and their slots. */
  method FindFreeSlots(calendar: Snapshot) returns (free: seq<Slot>)
    ensures free == FreeSlots(calendar.days)
  {
    var days := calendar.days;
    free := [];
    for d := 0 to |days|
      invariant free == FreeSlots(days[..d])
    {
      var day := days[d];
      assert days[..d + 1][..d] == days[..d];
      if day.status == AVAILABLE {
        free := AppendZones(free, day.zonesSchedule);
      }
    }
    assert days[..|days|] == days;
  }

  // ---------------------------------------------------------------------------
  // What the extractor returns

  lemma {:induction false} AvailableSlotsMembership(slots: seq<Slot>, s: Slot)
    ensures s in AvailableSlots(slots) <==> s in slots && s.status == AVAILABLE
  {
    if slots != [] {
      var init := slots[..|slots| - 1];
      AvailableSlotsMembership(init, s);
      assert slots == init + [slots[|slots| - 1]];
    }
  }

  /** An open slot of some zone, with the index of that zone. */
  lemma {:induction false} ZonesAvailableWitness(zones: seq<Zone>, s: Slot) returns (z: nat)
    requires s in ZonesAvailable(zones)
    ensures z < |zones| && s in zones[z].slots && s.status == AVAILABLE
  {
    assert zones != [];
    var n := |zones| - 1;
    if s in AvailableSlots(zones[n].slots) {
      AvailableSlotsMembership(zones[n].slots, s);
      z := n;
    } else {
      z := ZonesAvailableWitness(zones[..n], s);
      assert zones[..n][z] == zones[z];
    }
  }

  lemma {:induction false} ZonesAvailableContains(zones: seq<Zone>, z: nat, s: Slot)
    requires z < |zones| && s in zones[z].slots && s.status == AVAILABLE
    ensures s in ZonesAvailable(zones)
  {
    var n := |zones| - 1;
    if z == n {
      AvailableSlotsMembership(zones[n].slots, s);
    } else {
      assert zones[..n][z] == zones[z];
      ZonesAvailableContains(zones[..n], z, s);
    }
  }

  lemma ZonesAvailableMembership(zones: seq<Zone>, s: Slot)
    ensures s in ZonesAvailable(zones) <==>
            s.status == AVAILABLE && exists z :: 0 <= z < |zones| && s in zones[z].slots
  {
    if s in ZonesAvailable(zones) {
      var z := ZonesAvailableWitness(zones, s);
    }
    if s.status == AVAILABLE && exists z :: 0 <= z < |zones| && s in zones[z].slots {
      var z :| 0 <= z < |zones| && s in zones[z].slots;
      ZonesAvailableContains(zones, z, s);
    }
  }

  /** `s` occurs in some zone of `day`, and `day` itself is open. */
  predicate InOpenDay(day: Day, s: Slot)
  {
    day.status == AVAILABLE && exists z :: 0 <= z < |day.zonesSchedule| && s in day.zonesSchedule[z].slots
  }

  /** A returned slot, with the index of the open day it comes from. */
  lemma {:induction false} FreeSlotsWitness(days: seq<Day>, s: Slot) returns (d: nat)
    requires s in FreeSlots(days)
    ensures d < |days| && InOpenDay(days[d], s) && s.status == AVAILABLE
  {
    assert days != [];
    var n := |days| - 1;
    if s in DayFree(days[n]) {
      var z := ZonesAvailableWitness(days[n].zonesSchedule, s);
      d := n;
    } else {
      d := FreeSlotsWitness(days[..n], s);
      assert days[..n][d] == days[d];
    }
  }

  lemma {:induction false} FreeSlotsContains(days: seq<Day>, d: nat, s: Slot)
    requires d < |days| && InOpenDay(days[d], s) && s.status == AVAILABLE
    ensures s in FreeSlots(days)
  {
    var n := |days| - 1;
    if d == n {
      var z :| 0 <= z < |days[n].zonesSchedule| && s in days[n].zonesSchedule[z].slots;
      ZonesAvailableContains(days[n].zonesSchedule, z, s);
    } else {
      assert days[..n][d] == days[d];
      FreeSlotsContains(days[..n], d, s);
    }
  }

  /**
    A slot is returned exactly when its own status is AVAILABLE and it occurs in
    some zone of a day whose status is AVAILABLE.
  */
  lemma FreeSlotsMembership(days: seq<Day>, s: Slot)
    ensures s in FreeSlots(days) <==>
            s.status == AVAILABLE && exists d :: 0 <= d < |days| && InOpenDay(days[d], s)
  {
    if s in FreeSlots(days) {
      var d := FreeSlotsWitness(days, s);
    }
    if s.status == AVAILABLE && exists d :: 0 <= d < |days| && InOpenDay(days[d], s) {
      var d :| 0 <= d < |days| && InOpenDay(days[d], s);
      FreeSlotsContains(days, d, s);
    }
  }

  /**
    The zones of a day that is not AVAILABLE are never looked at: replacing them,
    whatever the statuses of their slots, leaves the result unchanged.
  */
  lemma {:induction false} UnavailableDayIgnored(days: seq<Day>, d: nat, zones: seq<Zone>)
    requires d < |days| && days[d].status != AVAILABLE
    ensures FreeSlots(days[d := Day(days[d].status, zones)]) == FreeSlots(days)
  {
    var days' := days[d := Day(days[d].status, zones)];
    var n := |days| - 1;
    if d < n {
      assert days'[..n] == days[..n][d := Day(days[d].status, zones)];
      UnavailableDayIgnored(days[..n], d, zones);
      assert days'[n] == days[n];
    } else {
      assert days'[..n] == days[..n];
      assert DayFree(days'[n]) == [] == DayFree(days[n]);
    }
    assert FreeSlots(days') == FreeSlots(days'[..n]) + DayFree(days'[n]);
  }

  lemma {:induction false} AvailableSlotsSubsequence(slots: seq<Slot>)
    ensures IsSubsequence(AvailableSlots(slots), slots)
  {
    if slots != [] {
      var init := slots[..|slots| - 1];
      var last := slots[|slots| - 1];
      AvailableSlotsSubsequence(init);
      if last.status == AVAILABLE {
        var r := AvailableSlots(slots);
        assert r[..|r| - 1] == AvailableSlots(init);
      } else {
        assert AvailableSlots(slots) == AvailableSlots(init);
      }
    }
  }

  lemma {:induction false} ZonesAvailableSubsequence(zones: seq<Zone>)
    ensures IsSubsequence(ZonesAvailable(zones), ZonesAll(zones))
  {
    if zones != [] {
      var n := |zones| - 1;
      ZonesAvailableSubsequence(zones[..n]);
      AvailableSlotsSubsequence(zones[n].slots);
      SubsequenceConcat(ZonesAvailable(zones[..n]), ZonesAll(zones[..n]),
                        AvailableSlots(zones[n].slots), zones[n].slots);
    }
  }

  /**
    The free slots keep the encounter order of the day -> zone -> slot walk: they
    are a subsequence of the full flattening, so there are at most as many of them
    as the snapshot has slots.
  */
  lemma {:induction false} FreeSlotsSubsequence(days: seq<Day>)
    ensures IsSubsequence(FreeSlots(days), AllSlots(days))
    ensures |FreeSlots(days)| <= |AllSlots(days)|
  {
    if days != [] {
      var n := |days| - 1;
      FreeSlotsSubsequence(days[..n]);
      var zones := days[n].zonesSchedule;
      if days[n].status == AVAILABLE {
        ZonesAvailableSubsequence(zones);
      }
      SubsequenceConcat(FreeSlots(days[..n]), AllSlots(days[..n]), DayFree(days[n]), ZonesAll(zones));
    }
    SubsequenceLength(FreeSlots(days), AllSlots(days));
  }
}
