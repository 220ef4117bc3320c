/**
 * The calendar manager: clicking a day toggles it in the selection, the events
 * touching any selected day are listed, and a new event is built from the
 * selection and the form.
 */
module Calendar {
  import opened Wrappers
  import opened Seqs
  import opened Types
  import opened FormText
  import opened Catalog

  /** `a.toDateString() === b.toDateString()` */
  predicate SameDay(a: Instant, b: Instant) {
    a.day == b.day
  }

  /** Some date of `s` falls on the day of `date`. */
  predicate HasDay(s: seq<Instant>, date: Instant) {
    exists x :: x in s && SameDay(x, date)
  }

  /** No two dates of `s` fall on the same day. */
  predicate DistinctDays(s: seq<Instant>) {
    forall i, j :: 0 <= i < j < |s| ==> !SameDay(s[i], s[j])
  }

  /** `findIndex(d => d.toDateString() === date.toDateString())`: the first same-day index, or -1. */
  function FindSameDay(s: seq<Instant>, date: Instant): (k: int)
    ensures -1 <= k < |s|
    ensures k >= 0 ==> SameDay(s[k], date) && forall m :: 0 <= m < k ==> !SameDay(s[m], date)
    ensures k == -1 ==> !HasDay(s, date)
  {
    if s == [] then -1
    else if SameDay(s[0], date) then 0
    else
      var k := FindSameDay(s[1..], date);
      if k < 0 then -1 else k + 1
  }

  /** The selection after clicking `date`: that day's first entry removed, or `date` appended. */
  function ClickDate(selected: seq<Instant>, date: Instant): seq<Instant> {
    var k := FindSameDay(selected, date);
    if k >= 0 then selected[..k] + selected[k + 1..] else selected + [date]
  }

  /** The event has a date on the day of some date in `dates`. */
  predicate TouchesDays(e: CalendarEvent, dates: seq<Instant>) {
    exists x, y :: x in e.dates && y in dates && SameDay(x, y)
  }

  /** `getEventsByDates`: the events touching any of the days, in stored order. */
  function EventsByDates(events: seq<CalendarEvent>, dates: seq<Instant>): (r: seq<CalendarEvent>)
    ensures forall e :: e in r <==> e in events && TouchesDays(e, dates)
    ensures forall e :: multiset(r)[e] == if TouchesDays(e, dates) then multiset(events)[e] else 0
    ensures IsSubsequence(r, events)
  {
    FilterIsSubsequence(events, (e: CalendarEvent) => TouchesDays(e, dates));
    FilterMultiplicity(events, (e: CalendarEvent) => TouchesDays(e, dates));
    Filter(events, (e: CalendarEvent) => TouchesDays(e, dates))
  }

  /** The guard of `handleAddEvent`: a day is selected and the title is not blank. */
  predicate CanAddEvent(selected: seq<Instant>, title: string) {
    selected != [] && Trim(title) != ""
  }

  const DefaultColor: string := "#3b82f6"

  // ---------------------------------------------------------------------------
  // Properties

  /** Clicking a day not yet selected appends it and keeps the rest. */
  lemma ClickUnselectedAppends(selected: seq<Instant>, date: Instant)
    requires !HasDay(selected, date)
    ensures ClickDate(selected, date) == selected + [date]
  {
  }

  /** Clicking a selected day removes exactly its first entry and keeps the others in order. */
  lemma ClickSelectedRemovesOne(selected: seq<Instant>, date: Instant)
    requires HasDay(selected, date)
    ensures exists k ::
      && 0 <= k < |selected| && SameDay(selected[k], date)
      && (forall m :: 0 <= m < k ==> !SameDay(selected[m], date))
      && ClickDate(selected, date) == selected[..k] + selected[k + 1..]
  {
    var x :| x in selected && SameDay(x, date);
    var k := FindSameDay(selected, date);
    assert k >= 0;
  }

  /** Clicking an unselected day twice restores the selection. */
  lemma ClickTwiceRestores(selected: seq<Instant>, date: Instant)
    requires !HasDay(selected, date)
    ensures ClickDate(ClickDate(selected, date), date) == selected
  {
    var s := selected + [date];
    assert FindSameDay(selected, date) == -1;
    assert ClickDate(selected, date) == s;
    SameDayIndex(selected, date);
    assert s[..|selected|] == selected && s[|selected| + 1..] == [];
  }

  /** In `s + [date]`, with no earlier date on that day, the first entry on the day is the last. */
  lemma {:induction false} SameDayIndex(s: seq<Instant>, date: Instant)
    requires !HasDay(s, date)
    ensures FindSameDay(s + [date], date) == |s|
  {
    if s != [] {
      assert (s + [date])[1..] == s[1..] + [date];
      assert !HasDay(s[1..], date) by {
        forall x | x in s[1..]
          ensures !SameDay(x, date)
        {
          assert x in s;
        }
      }
      SameDayIndex(s[1..], date);
    }
  }

  /** Clicking toggles the day: it is selected afterwards exactly when it was not before, and no day is ever selected twice. */
  lemma ClickToggles(selected: seq<Instant>, date: Instant)
    requires DistinctDays(selected)
    ensures DistinctDays(ClickDate(selected, date))
    ensures HasDay(ClickDate(selected, date), date) <==> !HasDay(selected, date)
  {
    var k := FindSameDay(selected, date);
    var r := ClickDate(selected, date);
    if k >= 0 {
      assert r == selected[..k] + selected[k + 1..];
      forall x | x in r
        ensures !SameDay(x, date)
      {
        var m :| 0 <= m < |r| && r[m] == x;
        if m < k {
          assert r[m] == selected[m];
        } else {
          assert r[m] == selected[m + 1];
        }
      }
      forall i, j | 0 <= i < j < |r|
        ensures !SameDay(r[i], r[j])
      {
        var i' := if i < k then i else i + 1;
        var j' := if j < k then j else j + 1;
        assert r[i] == selected[i'] && r[j] == selected[j'];
      }
    } else {
      assert r == selected + [date];
      assert r[|selected|] == date && date in r;
      forall i, j | 0 <= i < j < |r|
        ensures !SameDay(r[i], r[j])
      {
        assert r[i] == selected[i];
        if j == |selected| {
          assert selected[i] in selected;
        } else {
          assert r[j] == selected[j];
        }
      }
    }
  }

  /** With nothing selected no event is listed. */
  lemma NoSelectionNoEvents(events: seq<CalendarEvent>)
    ensures EventsByDates(events, []) == []
  {
    var r := EventsByDates(events, []);
    assert forall k :: 0 <= k < |r| ==> r[k] in r;
  }

  /** An event just added to the calendar is listed for any selection that includes one of its days. */
  lemma AddedEventIsListed(events: seq<CalendarEvent>, e: NewEvent, id: string, dates: seq<Instant>, i: int)
    requires 0 <= i < |e.dates| && HasDay(dates, e.dates[i])
    ensures CreateEvent(e, id) in EventsByDates(events + [CreateEvent(e, id)], dates)
  {
    var y :| y in dates && SameDay(y, e.dates[i]);
    assert e.dates[i] in CreateEvent(e, id).dates;
    assert TouchesDays(CreateEvent(e, id), dates);
  }

  // ---------------------------------------------------------------------------
  // The component

  class CalendarForm {
    const user: User
    var selectedDates: seq<Instant>
    var title: string
    var kind: EventKind
    var description: string
    var color: string
    var dialogOpen: bool

    constructor (user: User)
      ensures this.user == user && selectedDates == [] && !dialogOpen
      ensures title == "" && kind == Important && description == "" && color == DefaultColor
    {
      this.user := user;
      selectedDates := [];
      title := "";
      kind := Important;
      description := "";
      color := DefaultColor;
      dialogOpen := false;
    }

    /** `handleDateClick` */
    method HandleDateClick(date: Instant)
      modifies this`selectedDates
      ensures selectedDates == ClickDate(old(selectedDates), date)
    {
      var k := FindSameDay(selectedDates, date);
      if k >= 0 {
        selectedDates := selectedDates[..k] + selectedDates[k + 1..];
      } else {
        selectedDates := selectedDates + [date];
      }
    }

    /**
     * `handleAddEvent`: refused, changing nothing, without a selected day or with
     * a blank title; otherwise returns the event for `onAddEvent`, created by the
     * user over a copy of the selection, and resets the form, the selection and
     * the dialog.
     */
    method HandleAddEvent() returns (added: Option<NewEvent>)
      modifies this
      ensures !CanAddEvent(old(selectedDates), old(title)) ==>
        && added.None?
        && selectedDates == old(selectedDates) && title == old(title) && kind == old(kind)
        && description == old(description) && color == old(color) && dialogOpen == old(dialogOpen)
      ensures CanAddEvent(old(selectedDates), old(title)) ==>
        && added == Some(NewEvent(old(selectedDates), old(title), old(kind), Some(old(description)), user.username, Some(old(color))))
        && selectedDates == [] && !dialogOpen
        && title == "" && kind == Important && description == "" && color == DefaultColor
    {
      if selectedDates == [] || Trim(title) == "" {
        return None;
      }
      added := Some(NewEvent(selectedDates, title, kind, Some(description), user.username, Some(color)));
      title, kind, description, color := "", Important, "", DefaultColor;
      selectedDates := [];
      dialogOpen := false;
    }
  }
}
