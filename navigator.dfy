/** Schedule navigation: from the rotas of all facilities down to the line
    elements served at one facility on one date, narrowing one level at a time. */
module Navigator {
  import opened Schema
  import opened Search

  /** Where navigation ends. `IndexOutOfBounds` is the case the program does
      not handle: an opening-hour or meal-time array that is present but
      empty, whose element 0 the program takes regardless. */
  datatype Navigation = Lines(lines: seq<LineElement>) | NoDailyMeals | IndexOutOfBounds

  /** The rota belongs to the facility and its validity interval contains the date. */
  predicate Covers(r: WeeklyRota, facilityId: nat, date: Date)
  {
    r.facilityId == facilityId && r.validFrom <= date && (r.validTo.None? || r.validTo.value >= date)
  }

  function CoversOn(facilityId: nat, date: Date): WeeklyRota -> bool
  {
    (r: WeeklyRota) => Covers(r, facilityId, date)
  }

  function OnWeekday(weekday: nat): DayOfWeek -> bool
  {
    (d: DayOfWeek) => d.dayOfWeekCode == weekday
  }

  /** The first rota, in input order, that covers the facility on the date. */
  function SelectRota(rotas: seq<WeeklyRota>, facilityId: nat, date: Date): (r: Option<WeeklyRota>)
    ensures r.None? <==> forall i :: 0 <= i < |rotas| ==> !Covers(rotas[i], facilityId, date)
    ensures forall i :: IsFirst(rotas, CoversOn(facilityId, date), i) ==> r == Some(rotas[i])
    ensures r.Some? ==> exists i :: IsFirst(rotas, CoversOn(facilityId, date), i) && r.value == rotas[i]
  {
    match FindFirst(rotas, CoversOn(facilityId, date))
    case None => None
    case Some(i) => Some(rotas[i])
  }

  /** The first day of the rota whose weekday code is `weekday`. */
  function SelectDay(rota: WeeklyRota, weekday: nat): (r: Option<DayOfWeek>)
    ensures r.None? <==> forall k :: 0 <= k < |rota.dayOfWeekArray| ==> rota.dayOfWeekArray[k].dayOfWeekCode != weekday
    ensures forall k :: IsFirst(rota.dayOfWeekArray, OnWeekday(weekday), k) ==> r == Some(rota.dayOfWeekArray[k])
    ensures r.Some? ==> exists k :: IsFirst(rota.dayOfWeekArray, OnWeekday(weekday), k) && r.value == rota.dayOfWeekArray[k]
  {
    match FindFirst(rota.dayOfWeekArray, OnWeekday(weekday))
    case None => None
    case Some(k) => Some(rota.dayOfWeekArray[k])
  }

  /** The outcome of taking element 0 of an optional array. */
  datatype Pick<T> = Picked(value: T) | Absent | Empty

  /** The first-of-list policy used for opening-hour blocks and meal-time slots. */
  function FirstOf<T>(a: Option<seq<T>>): (p: Pick<T>)
    ensures p.Absent? <==> a.None?
    ensures p.Empty? <==> a == Some([])
    ensures p.Picked? ==> a.Some? && |a.value| > 0 && p.value == a.value[0]
  {
    match a
    case None => Absent
    case Some(s) => if |s| == 0 then Empty else Picked(s[0])
  }

  /** Navigation below the selected day: block 0, then slot 0, then its lines. */
  function DayMenu(day: DayOfWeek): (r: Navigation)
    ensures r.Lines? ==> LeadsTo(day, r.lines)
    ensures r == NoDailyMeals <==> Closed(day)
    ensures r == IndexOutOfBounds <==> EmptyLevel(day)
  {
    match FirstOf(day.openingHourArray)
    case Absent => NoDailyMeals
    case Empty => IndexOutOfBounds
    case Picked(block) =>
      match FirstOf(block.mealTimeArray)
      case Absent => NoDailyMeals
      case Empty => IndexOutOfBounds
      case Picked(slot) =>
        match slot.lineArray
        case None => NoDailyMeals
        case Some(lines) => Lines(lines)
  }

  /** The line elements served at the facility on the date and weekday. */
  function ResolveMenu(rotas: seq<WeeklyRota>, facilityId: nat, date: Date, weekday: nat): (r: Navigation)
    ensures NothingSelected(rotas, facilityId, date, weekday) ==> r == NoDailyMeals
    ensures forall i, k :: Selected(rotas, facilityId, date, weekday, i, k) ==> r == DayMenu(rotas[i].dayOfWeekArray[k])
  {
    match SelectRota(rotas, facilityId, date)
    case None => NoDailyMeals
    case Some(rota) =>
      match SelectDay(rota, weekday)
      case None => NoDailyMeals
      case Some(day) => DayMenu(day)
  }

  /** The day's arrays lead, through element 0 of each, to exactly `lines`. */
  ghost predicate LeadsTo(day: DayOfWeek, lines: seq<LineElement>)
  {
    day.openingHourArray.Some? && |day.openingHourArray.value| > 0
    && var block := day.openingHourArray.value[0];
    block.mealTimeArray.Some? && |block.mealTimeArray.value| > 0
    && block.mealTimeArray.value[0].lineArray == Some(lines)
  }

  /** Some level below the day is absent: no opening hours, no meal times, or no lines. */
  ghost predicate Closed(day: DayOfWeek)
  {
    day.openingHourArray.None?
    || (|day.openingHourArray.value| > 0
        && var block := day.openingHourArray.value[0];
        block.mealTimeArray.None?
        || (|block.mealTimeArray.value| > 0 && block.mealTimeArray.value[0].lineArray.None?))
  }

  /** An array that is taken at index 0 is present but empty. */
  ghost predicate EmptyLevel(day: DayOfWeek)
  {
    day.openingHourArray == Some([])
    || (day.openingHourArray.Some? && |day.openingHourArray.value| > 0
        && day.openingHourArray.value[0].mealTimeArray == Some([]))
  }

  /** The day selected for a date: the first matching day of the first covering rota. */
  ghost predicate Selected(rotas: seq<WeeklyRota>, facilityId: nat, date: Date, weekday: nat, i: int, k: int)
  {
    IsFirst(rotas, CoversOn(facilityId, date), i)
    && IsFirst(rotas[i].dayOfWeekArray, OnWeekday(weekday), k)
  }

  /** No day is selected: no rota covers the date, or the first covering rota
      has no entry for the weekday. */
  ghost predicate NothingSelected(rotas: seq<WeeklyRota>, facilityId: nat, date: Date, weekday: nat)
  {
    (forall i :: 0 <= i < |rotas| ==> !Covers(rotas[i], facilityId, date))
    || exists i :: IsFirst(rotas, CoversOn(facilityId, date), i)
                   && forall k :: 0 <= k < |rotas[i].dayOfWeekArray| ==> rotas[i].dayOfWeekArray[k].dayOfWeekCode != weekday
  }

  /** The menu is exactly the line array reached through element 0 of the
      selected day's opening hours and of that block's meal times. */
  lemma LinesExactly(rotas: seq<WeeklyRota>, facilityId: nat, date: Date, weekday: nat, lines: seq<LineElement>)
    ensures ResolveMenu(rotas, facilityId, date, weekday) == Lines(lines) <==>
            exists i, k :: Selected(rotas, facilityId, date, weekday, i, k) && LeadsTo(rotas[i].dayOfWeekArray[k], lines)
  {
  }

  /** The menu is "no daily meals" exactly when no day is selected or some
      level below the selected day is absent. */
  lemma NoDailyMealsExactly(rotas: seq<WeeklyRota>, facilityId: nat, date: Date, weekday: nat)
    ensures ResolveMenu(rotas, facilityId, date, weekday) == NoDailyMeals <==>
            NothingSelected(rotas, facilityId, date, weekday)
            || exists i, k :: Selected(rotas, facilityId, date, weekday, i, k) && Closed(rotas[i].dayOfWeekArray[k])
  {
  }

  /** Navigation fails on an index exactly when the selected day leads to a
      present but empty opening-hour or meal-time array. */
  lemma IndexOutOfBoundsExactly(rotas: seq<WeeklyRota>, facilityId: nat, date: Date, weekday: nat)
    ensures ResolveMenu(rotas, facilityId, date, weekday) == IndexOutOfBounds <==>
            exists i, k :: Selected(rotas, facilityId, date, weekday, i, k) && EmptyLevel(rotas[i].dayOfWeekArray[k])
  {
  }

  /** Overlapping rotas are resolved by input order: once a covering rota has
      been seen, later rotas never affect the menu. */
  lemma FirstCoveringRotaWins(rotas: seq<WeeklyRota>, more: seq<WeeklyRota>, facilityId: nat, date: Date, weekday: nat, i: int)
    requires 0 <= i < |rotas| && Covers(rotas[i], facilityId, date)
    ensures ResolveMenu(rotas + more, facilityId, date, weekday) == ResolveMenu(rotas, facilityId, date, weekday)
  {
    FindFirstPrefix(rotas, more, CoversOn(facilityId, date), i);
    var j := FindFirst(rotas, CoversOn(facilityId, date)).value;
    assert (rotas + more)[j] == rotas[j];
  }

  /** Rotas of other facilities never affect the menu, wherever they stand. */
  lemma OtherFacilitiesIgnored(a: seq<WeeklyRota>, x: WeeklyRota, b: seq<WeeklyRota>, facilityId: nat, date: Date, weekday: nat)
    requires x.facilityId != facilityId
    ensures ResolveMenu(a + [x] + b, facilityId, date, weekday) == ResolveMenu(a + b, facilityId, date, weekday)
  {
    FindFirstSkip(a, x, b, CoversOn(facilityId, date));
  }
}
