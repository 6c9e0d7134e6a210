/** The parsed catalog payload: facilities and their weekly rotas, down to the
    meals and price tiers, with the optionality the upstream schema publishes. */
module Schema {

  datatype Option<+T> = None | Some(value: T)

  /** A calendar date, as a day number; only its order is used. */
  type Date = int

  /** A time of day, in minutes after midnight; carried, never inspected. */
  type Time = int

  datatype Facility = Facility(
    facilityId: nat,
    facilityName: string,
    facilityUrl: Option<string>,
    building: string,
    floor: string,
    addressLine2: string,
    addressLine3: string,
    phone: Option<string>,
    catererName: Option<string>,
    catererUrl: Option<string>,
    publicationTypeCode: nat,
    publicationTypeDesc: string,
    publicationTypeDescShort: string)

  /** The facility catalog, in the order the service returned it. */
  datatype Facilities = Facilities(items: seq<Facility>)

  /** A rota is valid from `validFrom` up to `validTo`, or open-ended. */
  datatype WeeklyRota = WeeklyRota(
    weeklyRotaId: nat,
    facilityId: nat,
    validFrom: Date,
    validTo: Option<Date>,
    dayOfWeekArray: seq<DayOfWeek>)

  /** `dayOfWeekCode` counts from Monday = 1 to Sunday = 7. */
  datatype DayOfWeek = DayOfWeek(
    dayOfWeekCode: nat,
    dayOfWeekDesc: string,
    dayOfWeekDescShort: string,
    openingHourArray: Option<seq<OpeningHour>>)

  datatype Times = Times(timeFrom: Time, timeTo: Time)

  datatype OpeningHour = OpeningHour(times: Times, mealTimeArray: Option<seq<MealTime>>)

  datatype MealTime = MealTime(name: string, times: Times, lineArray: Option<seq<LineElement>>)

  /** A serving station, with the meal assigned to it, if any. */
  datatype LineElement = LineElement(name: string, meal: Option<Meal>)

  datatype Meal = Meal(name: string, description: string, mealPriceArray: seq<MealPrice>)

  /** `price` is the text the floating-point price displays as. */
  datatype MealPrice = MealPrice(
    price: string,
    customerGroupCode: nat,
    customerGroupPosition: nat,
    customerGroupDesc: string,
    customerGroupDescShort: string)
}
