/** When a reminder is due: 08:00 of the due date in the assignee's zone, or later. */
module ReminderClock {
  import opened Basics

  const DAY := 86400
  const REMINDER_HOUR := 8

  /** A zone gives, for 08:00 of a day, how many seconds local time is ahead of UTC. */
  type Zone = int -> int

  /** The moment of 08:00 on a day, in seconds since 1970-01-01 UTC; days count from there too. */
  function ReminderTime(due: int, zone: Zone): int { due * DAY + REMINDER_HOUR * 3600 - zone(due) }

  predicate ReminderDue(due: Option<int>, now: int, zone: Zone) {
    due.Some? && now >= ReminderTime(due.value, zone)
  }

  /** Due from eight o'clock local time on the due date, by the zone's offset at that hour; never without a due date. */
  lemma DueLocally(due: int, now: int, zone: Zone)
    ensures var local := now + zone(due);
            var day, hour := local / (24 * 60 * 60), local % (24 * 60 * 60) / (60 * 60);
            ReminderDue(Some(due), now, zone) <==> day > due || (day == due && hour >= 8)
    ensures !ReminderDue(None, now, zone)
  {
    var local := now + zone(due);
    assert local == local / 86400 * 86400 + local % 86400;
  }

  /** In Tokyo, nine hours ahead, a reminder is due from 23:00 UTC of the day before. */
  lemma DueInTokyo(due: int, now: int)
    ensures ReminderDue(Some(due), now, _ => 9 * 3600) <==> now >= (due - 1) * 86400 + 23 * 3600
  {
    assert (due - 1) * 86400 == due * DAY - 86400;
  }

  /** Tomorrow's UTC date. */
  function DueBy(now: int): int { now / DAY + 1 }

  /** The cutoff hides nothing due anywhere: no zone is a day ahead of UTC. */
  lemma CutoffSafe(due: int, now: int, zone: Zone)
    requires zone(due) < DAY && ReminderDue(Some(due), now, zone)
    ensures due <= DueBy(now)
  {
  }

  /** For a fixed offset, the cutoff hides nothing exactly when the offset is at most 32 hours. */
  lemma CutoffExactly(offset: int)
    ensures (forall due, now: int :: ReminderDue(Some(due), now, _ => offset) ==> due <= DueBy(now)) <==> offset <= 32 * 3600
  {
    if offset > 32 * 3600 {
      var now := DAY - 1;
      assert ReminderDue(Some(2), now, _ => offset) && 2 > DueBy(now);
    }
  }

  /** A zone by name, or the fallback for a name that is not known. */
  function LoadZone(zones: map<string, Zone>, name: string, fallback: Zone): Zone {
    if name in zones then zones[name] else fallback
  }
}
