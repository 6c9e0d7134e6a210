/** Worked examples of the pipeline on small payloads. Dates are days since
    1970-01-01: 19723 is Monday 2024-01-01 and 19725 the Wednesday after it. */
module Scenarios {
  import opened Schema
  import opened Errors
  import opened Catalog
  import opened Navigator
  import opened Renderer
  import opened Search

  function Place(id: nat, name: string, code: nat): Facility
  {
    Facility(id, name, None, "", "", "", "", None, None, None, code, "", "")
  }

  const Campus: seq<Facility> := [Place(1, "Polyterrasse", 1), Place(2, "Polybahn", 0)]

  /** A loose query resolves to the first match; the listing hides the unpublished facility. */
  lemma PolyScenario()
    ensures Resolve(Campus, "poly") == Ok(Campus[0])
    ensures Listed(Campus) == ["Polyterrasse"]
  {
    assert Text.Lower(Campus[0].facilityName)[..4] == "poly";
    assert IsFirst(Campus, MatchesQuery("poly"), 0);
  }

  const Soup := Meal("Soup", "Vegetable soup", [MealPrice("8.5", 1, 1, "Students", "Stud"), MealPrice("12", 3, 3, "Guests", "Guest")])
  const Stations: seq<LineElement> := [LineElement("A", None), LineElement("B", Some(Soup))]
  const Noon := Times(690, 810)

  function Wednesday(hours: Option<seq<OpeningHour>>): DayOfWeek
  {
    DayOfWeek(3, "Wednesday", "We", hours)
  }

  const OpenWednesday := Wednesday(Some([OpeningHour(Noon, Some([MealTime("Lunch", Noon, Some(Stations))]))]))

  function Rota(day: DayOfWeek): WeeklyRota
  {
    WeeklyRota(7, 1, 19723, None, [day])
  }

  /** On a Wednesday inside an open-ended rota, the menu is the slot's lines,
      printed station by station; only the station with a meal gets more lines. */
  lemma LunchScenario()
    ensures ResolveMenu([Rota(OpenWednesday)], 1, 19725, 3) == Lines(Stations)
    ensures Layout(Stations, true)
            == [Station("A"), Station("B"), MealName("Soup"), Description("Vegetable soup"), Prices(["8.5", "12"])]
    ensures Text.Join(["8.5", "12"], PriceSeparator) == "8.5 / 12"
  {
    assert IsFirst([Rota(OpenWednesday)], CoversOn(1, 19725), 0);
    assert IsFirst(Rota(OpenWednesday).dayOfWeekArray, OnWeekday(3), 0);
    assert PriceTexts(Soup) == ["8.5", "12"];
    assert Layout(Stations[1..], true) == ElementLayout(Stations[1], true) + Layout([], true);
  }

  /** A Wednesday entry without opening hours means no daily meals. */
  lemma ClosedScenario()
    ensures ResolveMenu([Rota(Wednesday(None))], 1, 19725, 3) == Navigator.NoDailyMeals
  {
    assert IsFirst([Rota(Wednesday(None))], CoversOn(1, 19725), 0);
  }

  /** A Wednesday entry whose opening-hour array is present but empty panics
      when its first element is taken. */
  lemma EmptyHoursScenario()
    ensures ResolveMenu([Rota(Wednesday(Some([])))], 1, 19725, 3) == IndexOutOfBounds
  {
    assert IsFirst([Rota(Wednesday(Some([])))], CoversOn(1, 19725), 0);
  }
}
