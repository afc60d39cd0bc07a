/**
 * Uganda's own Eid dates. Eid al-Fitr and Eid al-Adha depend on moon
 * sightings, so for the years whose observance is known the calendar keeps a
 * table of (month, day) per year; a year outside the table has no entry and
 * is left to the arithmetic Islamic calendar, which is not part of this model.
 */
module UgandaIslamicCalendar {
  import opened Wrappers
  import opened Dates

  const EID_AL_ADHA_DATES: map<int, (int, int)> :=
    map[2017 := (SEP, 1), 2018 := (AUG, 21), 2019 := (AUG, 11), 2020 := (JUL, 31)]

  const EID_AL_FITR_DATES: map<int, (int, int)> :=
    map[2017 := (JUN, 25), 2018 := (JUN, 14), 2019 := (JUN, 3), 2020 := (MAY, 24)]

  const FIRST_TABLED_YEAR := 2017
  const LAST_TABLED_YEAR := 2020

  /** The (month, day) a table holds for `year`, or nothing: an exact match, with no nearest-year fallback. */
  function Lookup(table: map<int, (int, int)>, year: int): (r: Option<(int, int)>)
    ensures r.Some? <==> year in table
    ensures r.Some? ==> r.value == table[year]
  {
    if year in table then Some(table[year]) else None
  }

  /** Eid al-Adha of `year`: tabled exactly for 2017 to 2020, and always a valid date of that year. */
  function EidAlAdha(year: int): (r: Option<(int, int)>)
    ensures r.Some? <==> FIRST_TABLED_YEAR <= year <= LAST_TABLED_YEAR
    ensures r.Some? ==> Valid(Date(year, r.value.0, r.value.1))
  {
    Lookup(EID_AL_ADHA_DATES, year)
  }

  /** Eid al-Fitr of `year`: tabled exactly for 2017 to 2020, and always a valid date of that year. */
  function EidAlFitr(year: int): (r: Option<(int, int)>)
    ensures r.Some? <==> FIRST_TABLED_YEAR <= year <= LAST_TABLED_YEAR
    ensures r.Some? ==> Valid(Date(year, r.value.0, r.value.1))
  {
    Lookup(EID_AL_FITR_DATES, year)
  }

  /** The tabled dates themselves, and absence on both sides of the table. */
  lemma EidExamples()
    ensures EidAlAdha(2017) == Some((SEP, 1)) && EidAlAdha(2018) == Some((AUG, 21))
    ensures EidAlAdha(2019) == Some((AUG, 11)) && EidAlAdha(2020) == Some((JUL, 31))
    ensures EidAlFitr(2017) == Some((JUN, 25)) && EidAlFitr(2018) == Some((JUN, 14))
    ensures EidAlFitr(2019) == Some((JUN, 3)) && EidAlFitr(2020) == Some((MAY, 24))
    ensures EidAlAdha(2016) == None && EidAlAdha(2021) == None
    ensures EidAlFitr(2016) == None && EidAlFitr(2021) == None
  {
  }

  /**
   * The two tables agree with the Islamic calendar: Eid al-Adha (10 Dhu
   * al-Hijjah) comes two lunar months of 29 or 30 days and nine days after
   * Eid al-Fitr (1 Shawwal), so 67 to 69 days later in every tabled year.
   */
  lemma FitrToAdha(year: int)
    requires EidAlFitr(year).Some?
    ensures EidAlAdha(year).Some?
    ensures var (fm, fd) := EidAlFitr(year).value;
            var (am, ad) := EidAlAdha(year).value;
            67 <= DayNumber(Date(year, am, ad)) - DayNumber(Date(year, fm, fd)) <= 69
  {
    if year == 2017 {
      assert DayNumber(Date(2017, SEP, 1)) - DayNumber(Date(2017, JUN, 25)) == 68;
    } else if year == 2018 {
      assert DayNumber(Date(2018, AUG, 21)) - DayNumber(Date(2018, JUN, 14)) == 68;
    } else if year == 2019 {
      assert DayNumber(Date(2019, AUG, 11)) - DayNumber(Date(2019, JUN, 3)) == 69;
    } else {
      assert DayNumber(Date(2020, JUL, 31)) - DayNumber(Date(2020, MAY, 24)) == 68;
    }
  }
}
