/**
 * The Uganda holiday set: a mutable collection of (date, name) entries that
 * `Populate` fills for one year, rule after rule, calling `AddObserved` after
 * each shiftable rule. Every method is proved against `UgandaRules`.
 */
module Uganda {
  import opened Wrappers
  import opened Dates
  import opened UgandaRules
  import opened UgandaDateKeys

  /**
   * The name stored at `dt`, as `self[dt]` reads it: the most recently added
   * entry on that date, or nothing when the date holds no entry.
   */
  function LastNameAt(entries: seq<Holiday>, dt: Date): (name: Option<string>)
    ensures name.Some? ==> Holiday(dt, name.value) in entries
  {
    if entries == [] then None
    else if entries[|entries| - 1].date == dt then Some(entries[|entries| - 1].name)
    else LastNameAt(entries[..|entries| - 1], dt)
  }

  /**
   * `LastNameAt` finds nothing exactly when no entry is on `dt`, and otherwise
   * finds the name of an entry on `dt` after which no entry is on `dt`.
   */
  lemma {:induction false} LastNameAtSpec(entries: seq<Holiday>, dt: Date)
    ensures LastNameAt(entries, dt).None? <==> forall i :: 0 <= i < |entries| ==> entries[i].date != dt
    ensures LastNameAt(entries, dt).Some? ==>
              exists i :: 0 <= i < |entries| && entries[i] == Holiday(dt, LastNameAt(entries, dt).value)
                          && forall j :: i < j < |entries| ==> entries[j].date != dt
  {
    if entries == [] {
    } else if entries[|entries| - 1].date == dt {
      var i := |entries| - 1;
      assert entries[i] == Holiday(dt, LastNameAt(entries, dt).value);
    } else {
      var init := entries[..|entries| - 1];
      LastNameAtSpec(init, dt);
      assert LastNameAt(entries, dt) == LastNameAt(init, dt);
      if LastNameAt(init, dt).Some? {
        var i :| 0 <= i < |init| && init[i] == Holiday(dt, LastNameAt(init, dt).value)
                 && forall j :: i < j < |init| ==> init[j].date != dt;
        assert entries[i] == init[i];
        assert forall j :: i < j < |init| ==> entries[j] == init[j];
        assert entries[i] == Holiday(dt, LastNameAt(entries, dt).value) && forall j :: i < j < |entries| ==> entries[j].date != dt;
      } else {
        assert forall i :: 0 <= i < |init| ==> entries[i] == init[i];
      }
    }
  }

  /**
   * What `AddObserved(dt, days)` adds to `entries`: when `observed` is on and
   * `dt` is a Sunday, one entry `days` days later named after the entry stored
   * at `dt` with " (Observed)"; otherwise nothing.
   */
  function ObservedEntry(entries: seq<Holiday>, dt: Date, days: int, observed: bool): (added: seq<Holiday>)
    requires Valid(dt)
    requires observed && IsSunday(dt) ==> LastNameAt(entries, dt).Some?
    ensures |added| <= 1
    ensures |added| == 1 <==> observed && IsSunday(dt)
    ensures |added| == 1 ==> Valid(added[0].date) && DayNumber(added[0].date) == DayNumber(dt) + days
  {
    if observed && IsSunday(dt) then [Holiday(AddDays(dt, days), ObservedName(LastNameAt(entries, dt).value))] else []
  }

  class Uganda {
    /** Whether a holiday on a Sunday gets a substitute entry. */
    const observed: bool
    var entries: seq<Holiday>

    constructor (observed: bool)
      ensures this.observed == observed && entries == []
    {
      this.observed := observed;
      entries := [];
    }

    /** Adds one entry and returns its date. */
    method AddHoliday(name: string, dt: Date) returns (added: Date)
      requires Dates.Valid(dt)
      modifies this
      ensures added == dt
      ensures entries == old(entries) + [Holiday(dt, name)]
    {
      entries := entries + [Holiday(dt, name)];
      added := dt;
    }

    /**
     * When `observed` is on and `dt` is a Sunday, adds one entry `days` days
     * later, named after the entry stored at `dt` with " (Observed)"; otherwise
     * changes nothing. The new date is not itself checked.
     */
    method AddObserved(dt: Date, days: int)
      requires Dates.Valid(dt)
      requires observed && IsSunday(dt) ==> LastNameAt(entries, dt).Some?
      modifies this
      ensures entries == old(entries) + ObservedEntry(old(entries), dt, days, observed)
    {
      if observed && IsSunday(dt) {
        var name := LastNameAt(entries, dt).value;
        var _ := AddHoliday(ObservedName(name), AddDays(dt, days));
      }
    }

    /**
     * Adds the holiday `name` on `dt`, then hands the date it returns to
     * `AddObserved` with `days`: the nested call the source makes for every
     * shiftable holiday. The entries grow by the rule's `Contribution`.
     */
    method AddWithObserved(name: string, dt: Date, days: int)
      requires Dates.Valid(dt)
      modifies this
      ensures entries == old(entries) + Contribution(Rule(dt, name, Some(days)), observed)
    {
      var added := AddHoliday(name, dt);
      assert LastNameAt(entries, added) == Some(name);
      AddObserved(added, days);
    }

    /**
     * Adds the holidays of `year`, rule after rule, when the year is after
     * 1962. `easter` is Easter Sunday of `year`, which the Easter calculation
     * supplies; all the model assumes of it is its window of 22 March to
     * 25 April. The entries added have a date each, as the date-keyed set
     * holds them.
     */
    method Populate(year: int, easter: Date)
      requires EasterWindow(year, easter)
      modifies this
      ensures entries == old(entries) + YearHolidays(year, easter, observed)
      ensures DistinctDates(entries[|old(entries)|..])
    {
      YearKeys(year, easter, observed);
      if year <= LAST_YEAR_WITHOUT_HOLIDAYS {
        return;
      }
      AddCivil(year, easter);
      AddGated(year);
      OpeningSplitAfter(year, easter, observed, old(entries));
      AddClosing(year);
      YearHolidaysSplitAfter(year, easter, observed, old(entries));
      assert entries[|old(entries)|..] == YearHolidays(year, easter, observed);
    }

    /** The first block of `Populate`: New Year's Day, Good Friday, Easter Monday and Labour Day. */
    method AddCivil(year: int, easter: Date)
      requires Dates.Valid(easter)
      modifies this
      ensures entries == old(entries) + Expand(CivilRules(year, easter), observed)
    {
      AddWithObserved(NEW_YEARS_DAY, Date(year, JAN, 1), 1);
      var _ := AddHoliday(GOOD_FRIDAY, AddDays(easter, -2));
      var _ := AddHoliday(EASTER_MONDAY, AddDays(easter, 1));
      AddWithObserved(LABOUR_DAY, Date(year, MAY, 1), 1);
      CivilInOrderAfter(year, easter, observed, old(entries));
    }

    /** The gated block of `Populate`: Liberation Day from 1986 on, Archbishop Janani Luwum Day from 2015 on. */
    method AddGated(year: int)
      modifies this
      ensures entries == old(entries) + Expand(LiberationRules(year), observed) + Expand(LuwumRules(year), observed)
    {
      GatedInOrder(year, observed);
      if year >= LIBERATION_DAY_SINCE {
        AddWithObserved(LIBERATION_DAY, Date(year, JAN, 26), 1);
      } else {
        assert old(entries) + [] == old(entries);
      }
      ghost var liberation := entries;
      if year >= JANANI_LUWUM_DAY_SINCE {
        AddWithObserved(JANANI_LUWUM_DAY, Date(year, FEB, 16), 1);
      } else {
        assert liberation + [] == liberation;
      }
    }

    /** The last block of `Populate`: Uganda Martyrs' Day to Boxing Day. */
    method AddClosing(year: int)
      modifies this
      ensures entries == old(entries) + Expand(ClosingRules(year), observed)
    {
      // Uganda Martyrs' Day and National Heroes' Day. The source's calls for
      // these pass no date to `_add_holiday` and the month and day to
      // `_add_observed` instead; the intended rules are 3 June and 9 June with
      // the default one-day substitute (see `MartyrsDayAsWritten`).
      AddWithObserved(MARTYRS_DAY, Date(year, JUN, 3), 1);
      AddWithObserved(HEROES_DAY, Date(year, JUN, 9), 1);
      AddWithObserved(INDEPENDENCE_DAY, Date(year, OCT, 9), 1);
      // Christmas Day's substitute comes two days later, after Boxing Day.
      AddWithObserved(CHRISTMAS_DAY, Date(year, DEC, 25), 2);
      AddWithObserved(BOXING_DAY, Date(year, DEC, 26), 1);
      ClosingInOrderAfter(year, observed, old(entries));
    }
  }
}
