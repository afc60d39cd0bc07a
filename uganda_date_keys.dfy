/**
 * The holiday set is keyed by date: a date holds one name. The entries one
 * population of a year adds never share a date, as long as Easter Sunday
 * falls in its Gregorian window of 22 March to 25 April. So keeping the
 * entries as a sequence loses nothing against a dictionary from dates to
 * names.
 */
module UgandaDateKeys {
  import opened Wrappers
  import opened Dates
  import opened UgandaRules

  /** No two entries are on the same date. */
  predicate DistinctDates(hs: seq<Holiday>)
  {
    forall i, j :: 0 <= i < j < |hs| ==> hs[i].date != hs[j].date
  }

  /** Every entry is a valid date whose ordinal lies between `lo` and `hi`. */
  predicate Within(hs: seq<Holiday>, lo: int, hi: int)
  {
    forall h :: h in hs ==> Valid(h.date) && lo <= DayNumber(h.date) <= hi
  }

  /** Every entry is a valid date whose ordinal lies before `lo` or after `hi`. */
  predicate Outside(hs: seq<Holiday>, lo: int, hi: int)
  {
    forall h :: h in hs ==> Valid(h.date) && (DayNumber(h.date) < lo || hi < DayNumber(h.date))
  }

  /** No entry of `x` shares its date with an entry of `y`. */
  predicate Apart(x: seq<Holiday>, y: seq<Holiday>)
  {
    forall a, b :: a in x && b in y ==> a.date != b.date
  }

  /** Gregorian Easter Sunday of `year` falls between 22 March and 25 April. */
  predicate EasterWindow(year: int, easter: Date)
  {
    easter.year == year
    && ((easter.month == MAR && 22 <= easter.day <= 31) || (easter.month == APR && 1 <= easter.day <= 25))
  }

  lemma EasterRange(year: int, easter: Date)
    requires EasterWindow(year, easter)
    ensures Valid(easter)
    ensures Ordinal(year, MAR, 22) <= DayNumber(easter) <= Ordinal(year, APR, 25)
  {
  }

  /** Two runs without a repeated date and with no date in common make a run without a repeated date. */
  lemma AppendDistinct(x: seq<Holiday>, y: seq<Holiday>)
    requires DistinctDates(x) && DistinctDates(y) && Apart(x, y)
    ensures DistinctDates(x + y)
  {
    var xy := x + y;
    forall i, j | 0 <= i < j < |xy|
      ensures xy[i].date != xy[j].date
    {
      if j < |x| {
        assert xy[i] == x[i] && xy[j] == x[j];
      } else if |x| <= i {
        assert xy[i] == y[i - |x|] && xy[j] == y[j - |x|];
      } else {
        assert xy[i] == x[i] && x[i] in x;
        assert xy[j] == y[j - |x|] && y[j - |x|] in y;
      }
    }
  }

  /** A run followed by a run of later dates: no repeated date, and the ordinals span both ranges. */
  lemma AppendAfter(x: seq<Holiday>, y: seq<Holiday>, lox: int, hix: int, loy: int, hiy: int)
    requires DistinctDates(x) && Within(x, lox, hix) && lox <= hix
    requires DistinctDates(y) && Within(y, loy, hiy)
    requires hix < loy <= hiy
    ensures DistinctDates(x + y) && Within(x + y, lox, hiy)
  {
    AppendDistinct(x, y);
  }

  /** A run clear of a range has no date in common with a run inside it. */
  lemma OutsideApart(x: seq<Holiday>, y: seq<Holiday>, lo: int, hi: int, loy: int, hiy: int)
    requires Outside(x, lo, hi) && Within(y, loy, hiy) && lo <= loy && hiy <= hi
    ensures Apart(x, y)
  {
  }

  /** One rule's entries: its own entry and possibly a substitute, on different dates from the rule's date on. */
  lemma ContributionKeys(r: Rule, observed: bool)
    requires Valid(r.date) && (r.shift.Some? ==> r.shift.value > 0)
    ensures DistinctDates(Contribution(r, observed))
    ensures Within(Contribution(r, observed), DayNumber(r.date), DayNumber(r.date) + if r.shift.Some? then r.shift.value else 0)
  {
    if Shifts(r, observed) {
      assert Contribution(r, observed) == [Base(r), Substitute(r)];
    } else {
      assert Contribution(r, observed) == [Base(r)];
    }
  }

  /** The civil block's entries, grouped as New Year's Day, the two Easter holidays, and Labour Day. */
  lemma CivilShape(year: int, easter: Date, observed: bool)
    requires Valid(easter)
    ensures Expand(CivilRules(year, easter), observed)
         == Contribution(Rule(Date(year, JAN, 1), NEW_YEARS_DAY, Some(1)), observed)
            + ([Holiday(AddDays(easter, -2), GOOD_FRIDAY)] + [Holiday(AddDays(easter, 1), EASTER_MONDAY)])
            + Contribution(Rule(Date(year, MAY, 1), LABOUR_DAY, Some(1)), observed)
  {
    var c1 := Contribution(Rule(Date(year, JAN, 1), NEW_YEARS_DAY, Some(1)), observed);
    CivilInOrder(year, easter, observed);
    AppendAssoc(c1, [Holiday(AddDays(easter, -2), GOOD_FRIDAY)], [Holiday(AddDays(easter, 1), EASTER_MONDAY)]);
  }

  /** Two entries, the first on an earlier date, both within a range of ordinals. */
  lemma PairKeys(a: Holiday, b: Holiday, lo: int, hi: int)
    requires Valid(a.date) && Valid(b.date)
    requires lo <= DayNumber(a.date) < DayNumber(b.date) <= hi
    ensures DistinctDates([a] + [b]) && Within([a] + [b], lo, hi)
  {
    assert [a] + [b] == [a, b];
  }

  /** Good Friday and Easter Monday: three days apart, between 20 March and 26 April. */
  lemma EasterKeys(year: int, easter: Date)
    requires EasterWindow(year, easter)
    ensures Valid(easter)
    ensures DistinctDates([Holiday(AddDays(easter, -2), GOOD_FRIDAY)] + [Holiday(AddDays(easter, 1), EASTER_MONDAY)])
    ensures Within([Holiday(AddDays(easter, -2), GOOD_FRIDAY)] + [Holiday(AddDays(easter, 1), EASTER_MONDAY)],
                   Ordinal(year, MAR, 20), Ordinal(year, APR, 26))
  {
    EasterRange(year, easter);
    var friday, monday := AddDays(easter, -2), AddDays(easter, 1);
    assert DayNumber(friday) + 2 == DayNumber(easter) == DayNumber(monday) - 1;
    assert Ordinal(year, MAR, 20) + 2 == Ordinal(year, MAR, 22) && Ordinal(year, APR, 25) + 1 == Ordinal(year, APR, 26);
    PairKeys(Holiday(friday, GOOD_FRIDAY), Holiday(monday, EASTER_MONDAY), Ordinal(year, MAR, 20), Ordinal(year, APR, 26));
  }

  /** New Year's Day, the Easter pair and Labour Day, each in its own stretch of the first months. */
  lemma CivilJoin(newYear: seq<Holiday>, easter: seq<Holiday>, labour: seq<Holiday>, year: int)
    requires DistinctDates(newYear) && Within(newYear, Ordinal(year, JAN, 1), Ordinal(year, JAN, 2))
    requires DistinctDates(easter) && Within(easter, Ordinal(year, MAR, 20), Ordinal(year, APR, 26))
    requires DistinctDates(labour) && Within(labour, Ordinal(year, MAY, 1), Ordinal(year, MAY, 2))
    ensures DistinctDates(newYear + easter + labour)
    ensures Within(newYear + easter + labour, Ordinal(year, JAN, 1), Ordinal(year, MAY, 2))
    ensures Outside(newYear + easter + labour, Ordinal(year, JAN, 3), Ordinal(year, MAR, 19))
  {
    AppendAfter(newYear, easter, Ordinal(year, JAN, 1), Ordinal(year, JAN, 2), Ordinal(year, MAR, 20), Ordinal(year, APR, 26));
    AppendAfter(newYear + easter, labour, Ordinal(year, JAN, 1), Ordinal(year, APR, 26), Ordinal(year, MAY, 1), Ordinal(year, MAY, 2));
  }

  /**
   * The civil and Easter holidays: on distinct dates in 1-2 January and
   * 20 March to 2 May, so clear of 3 January to 19 March.
   */
  lemma CivilKeys(year: int, easter: Date, observed: bool)
    requires EasterWindow(year, easter)
    ensures Valid(easter)
    ensures DistinctDates(Expand(CivilRules(year, easter), observed))
    ensures Within(Expand(CivilRules(year, easter), observed), Ordinal(year, JAN, 1), Ordinal(year, MAY, 2))
    ensures Outside(Expand(CivilRules(year, easter), observed), Ordinal(year, JAN, 3), Ordinal(year, MAR, 19))
  {
    EasterKeys(year, easter);
    CivilShape(year, easter, observed);
    var newYear := Rule(Date(year, JAN, 1), NEW_YEARS_DAY, Some(1));
    var labour := Rule(Date(year, MAY, 1), LABOUR_DAY, Some(1));
    ContributionKeys(newYear, observed);
    ContributionKeys(labour, observed);
    CivilJoin(Contribution(newYear, observed),
              [Holiday(AddDays(easter, -2), GOOD_FRIDAY)] + [Holiday(AddDays(easter, 1), EASTER_MONDAY)],
              Contribution(labour, observed), year);
  }

  /** Liberation Day and Archbishop Janani Luwum Day: on distinct dates between 26 January and 17 February. */
  lemma GatedKeys(year: int, observed: bool)
    ensures DistinctDates(Expand(LiberationRules(year), observed) + Expand(LuwumRules(year), observed))
    ensures Within(Expand(LiberationRules(year), observed) + Expand(LuwumRules(year), observed),
                   Ordinal(year, JAN, 26), Ordinal(year, FEB, 17))
  {
    var liberation := Rule(Date(year, JAN, 26), LIBERATION_DAY, Some(1));
    var luwum := Rule(Date(year, FEB, 16), JANANI_LUWUM_DAY, Some(1));
    GatedRuleKeys(LiberationRules(year), liberation, observed, year >= LIBERATION_DAY_SINCE);
    GatedRuleKeys(LuwumRules(year), luwum, observed, year >= JANANI_LUWUM_DAY_SINCE);
    assert DayNumber(liberation.date) == Ordinal(year, JAN, 26) && DayNumber(luwum.date) == Ordinal(year, FEB, 16);
    GatedJoin(Expand(LiberationRules(year), observed), Expand(LuwumRules(year), observed), year);
  }

  /** A gated rule's entries: none while the gate is shut, its own entries once it is open. */
  lemma GatedRuleKeys(rules: seq<Rule>, r: Rule, observed: bool, open: bool)
    requires Valid(r.date) && r.shift == Some(1)
    requires rules == if open then [r] else []
    ensures ValidRules(rules)
    ensures DistinctDates(Expand(rules, observed)) && Within(Expand(rules, observed), DayNumber(r.date), DayNumber(r.date) + 1)
  {
    ExpandSnoc([], r, observed);
    assert [] + [r] == [r];
    ContributionKeys(r, observed);
  }

  /** Entries in 26-27 January, then entries in 16-17 February. */
  lemma GatedJoin(liberation: seq<Holiday>, luwum: seq<Holiday>, year: int)
    requires DistinctDates(liberation) && Within(liberation, Ordinal(year, JAN, 26), Ordinal(year, JAN, 27))
    requires DistinctDates(luwum) && Within(luwum, Ordinal(year, FEB, 16), Ordinal(year, FEB, 17))
    ensures DistinctDates(liberation + luwum) && Within(liberation + luwum, Ordinal(year, JAN, 26), Ordinal(year, FEB, 17))
  {
    AppendAfter(liberation, luwum, Ordinal(year, JAN, 26), Ordinal(year, JAN, 27), Ordinal(year, FEB, 16), Ordinal(year, FEB, 17));
  }

  /** The rules up to line 68: on distinct dates between 1 January and 2 May. */
  lemma OpeningKeys(year: int, easter: Date, observed: bool)
    requires EasterWindow(year, easter)
    ensures Valid(easter)
    ensures DistinctDates(Expand(OpeningRules(year, easter), observed))
    ensures Within(Expand(OpeningRules(year, easter), observed), Ordinal(year, JAN, 1), Ordinal(year, MAY, 2))
  {
    EasterRange(year, easter);
    var civil := Expand(CivilRules(year, easter), observed);
    var liberation, luwum := Expand(LiberationRules(year), observed), Expand(LuwumRules(year), observed);
    ExpandConcat(CivilRules(year, easter), LiberationRules(year), observed);
    ExpandConcat(CivilRules(year, easter) + LiberationRules(year), LuwumRules(year), observed);
    AppendAssoc(civil, liberation, luwum);
    assert Expand(OpeningRules(year, easter), observed) == civil + (liberation + luwum);
    CivilKeys(year, easter, observed);
    GatedKeys(year, observed);
    OpeningJoin(civil, liberation + luwum, year);
  }

  /** The civil entries, clear of 3 January to 19 March, then entries inside that stretch. */
  lemma OpeningJoin(civil: seq<Holiday>, gated: seq<Holiday>, year: int)
    requires DistinctDates(civil) && Within(civil, Ordinal(year, JAN, 1), Ordinal(year, MAY, 2))
    requires Outside(civil, Ordinal(year, JAN, 3), Ordinal(year, MAR, 19))
    requires DistinctDates(gated) && Within(gated, Ordinal(year, JAN, 26), Ordinal(year, FEB, 17))
    ensures DistinctDates(civil + gated) && Within(civil + gated, Ordinal(year, JAN, 1), Ordinal(year, MAY, 2))
  {
    OutsideApart(civil, gated, Ordinal(year, JAN, 3), Ordinal(year, MAR, 19), Ordinal(year, JAN, 26), Ordinal(year, FEB, 17));
    AppendDistinct(civil, gated);
  }

  /** 25 and 26 December are consecutive days, so at most one of them is a Sunday. */
  lemma ChristmasSundays(year: int)
    ensures Valid(Date(year, DEC, 25)) && Valid(Date(year, DEC, 26))
    ensures DayNumber(Date(year, DEC, 26)) == DayNumber(Date(year, DEC, 25)) + 1 == Ordinal(year, DEC, 27) - 1
    ensures !(IsSunday(Date(year, DEC, 25)) && IsSunday(Date(year, DEC, 26)))
  {
    assert DayNumber(Date(year, DEC, 26)) == DayNumber(Date(year, DEC, 25)) + 1;
    NotTwoSundays(Date(year, DEC, 25), Date(year, DEC, 26));
  }

  /** Two consecutive days are not both Sundays. */
  lemma NotTwoSundays(a: Date, b: Date)
    requires Valid(a) && Valid(b) && DayNumber(b) == DayNumber(a) + 1
    ensures !(IsSunday(a) && IsSunday(b))
  {
    ShiftMod7(DayNumber(a) + 6, 1);
    assert Weekday(b) == (Weekday(a) + 1) % 7;
  }

  /**
   * Christmas Day and Boxing Day: 25 and 26 December, and a substitute on
   * 27 December for at most one of them, since they cannot both be Sundays.
   */
  lemma ChristmasKeys(year: int, observed: bool)
    ensures DistinctDates(Contribution(Rule(Date(year, DEC, 25), CHRISTMAS_DAY, Some(2)), observed)
                          + Contribution(Rule(Date(year, DEC, 26), BOXING_DAY, Some(1)), observed))
    ensures Within(Contribution(Rule(Date(year, DEC, 25), CHRISTMAS_DAY, Some(2)), observed)
                   + Contribution(Rule(Date(year, DEC, 26), BOXING_DAY, Some(1)), observed),
                   Ordinal(year, DEC, 25), Ordinal(year, DEC, 27))
  {
    var christmas := Rule(Date(year, DEC, 25), CHRISTMAS_DAY, Some(2));
    var boxing := Rule(Date(year, DEC, 26), BOXING_DAY, Some(1));
    ChristmasSundays(year);
    ContributionKeys(christmas, observed);
    ContributionKeys(boxing, observed);
    if Shifts(christmas, observed) {
      assert Contribution(boxing, observed) == [Base(boxing)];
      assert Contribution(christmas, observed) == [Base(christmas), Substitute(christmas)];
    } else {
      assert Contribution(christmas, observed) == [Base(christmas)];
    }
    AppendDistinct(Contribution(christmas, observed), Contribution(boxing, observed));
  }

  /** The rules from line 70 on: on distinct dates between 3 June and 27 December. */
  lemma ClosingKeys(year: int, observed: bool)
    ensures DistinctDates(Expand(ClosingRules(year), observed))
    ensures Within(Expand(ClosingRules(year), observed), Ordinal(year, JUN, 3), Ordinal(year, DEC, 27))
  {
    var martyrs, heroes := Rule(Date(year, JUN, 3), MARTYRS_DAY, Some(1)), Rule(Date(year, JUN, 9), HEROES_DAY, Some(1));
    var independence := Rule(Date(year, OCT, 9), INDEPENDENCE_DAY, Some(1));
    var christmas := Rule(Date(year, DEC, 25), CHRISTMAS_DAY, Some(2));
    var boxing := Rule(Date(year, DEC, 26), BOXING_DAY, Some(1));
    var c7, c8, c9 := Contribution(martyrs, observed), Contribution(heroes, observed), Contribution(independence, observed);
    var c10, c11 := Contribution(christmas, observed), Contribution(boxing, observed);
    ClosingInOrder(year, observed);
    AppendAssoc(c7 + c8 + c9, c10, c11);
    ContributionKeys(martyrs, observed);
    ContributionKeys(heroes, observed);
    ContributionKeys(independence, observed);
    ChristmasKeys(year, observed);
    ClosingJoin(c7, c8, c9, c10 + c11, year);
  }

  /** Entries in 3-4 June, 9-10 June, 9-10 October and 25-27 December, in that order. */
  lemma ClosingJoin(martyrs: seq<Holiday>, heroes: seq<Holiday>, independence: seq<Holiday>, christmas: seq<Holiday>, year: int)
    requires DistinctDates(martyrs) && Within(martyrs, Ordinal(year, JUN, 3), Ordinal(year, JUN, 4))
    requires DistinctDates(heroes) && Within(heroes, Ordinal(year, JUN, 9), Ordinal(year, JUN, 10))
    requires DistinctDates(independence) && Within(independence, Ordinal(year, OCT, 9), Ordinal(year, OCT, 10))
    requires DistinctDates(christmas) && Within(christmas, Ordinal(year, DEC, 25), Ordinal(year, DEC, 27))
    ensures DistinctDates(martyrs + heroes + independence + christmas)
    ensures Within(martyrs + heroes + independence + christmas, Ordinal(year, JUN, 3), Ordinal(year, DEC, 27))
  {
    var june3 := Ordinal(year, JUN, 3);
    AppendAfter(martyrs, heroes, june3, Ordinal(year, JUN, 4), Ordinal(year, JUN, 9), Ordinal(year, JUN, 10));
    AppendAfter(martyrs + heroes, independence, june3, Ordinal(year, JUN, 10), Ordinal(year, OCT, 9), Ordinal(year, OCT, 10));
    AppendAfter(martyrs + heroes + independence, christmas, june3, Ordinal(year, OCT, 10), Ordinal(year, DEC, 25), Ordinal(year, DEC, 27));
  }

  /**
   * With Easter Sunday in its window, no two entries of a year are on the
   * same date: the date-keyed holiday set holds every entry under its own
   * name, with no names to join.
   */
  lemma YearKeys(year: int, easter: Date, observed: bool)
    requires EasterWindow(year, easter)
    ensures Valid(easter)
    ensures DistinctDates(YearHolidays(year, easter, observed))
  {
    EasterRange(year, easter);
    if year > LAST_YEAR_WITHOUT_HOLIDAYS {
      var opening, closing := Expand(OpeningRules(year, easter), observed), Expand(ClosingRules(year), observed);
      ExpandConcat(OpeningRules(year, easter), ClosingRules(year), observed);
      assert YearHolidays(year, easter, observed) == opening + closing;
      OpeningKeys(year, easter, observed);
      ClosingKeys(year, observed);
      YearJoin(opening, closing, year);
    }
  }

  /** Entries between 1 January and 2 May, then entries between 3 June and 27 December. */
  lemma YearJoin(opening: seq<Holiday>, closing: seq<Holiday>, year: int)
    requires DistinctDates(opening) && Within(opening, Ordinal(year, JAN, 1), Ordinal(year, MAY, 2))
    requires DistinctDates(closing) && Within(closing, Ordinal(year, JUN, 3), Ordinal(year, DEC, 27))
    ensures DistinctDates(opening + closing)
  {
    AppendAfter(opening, closing, Ordinal(year, JAN, 1), Ordinal(year, MAY, 2), Ordinal(year, JUN, 3), Ordinal(year, DEC, 27));
  }

  /** Two entries of a year on the same date are the same entry. */
  lemma OneHolidayPerDate(year: int, easter: Date, observed: bool, h1: Holiday, h2: Holiday)
    requires EasterWindow(year, easter)
    requires h1 in YearHolidays(year, easter, observed) && h2 in YearHolidays(year, easter, observed)
    requires h1.date == h2.date
    ensures h1 == h2
  {
    YearKeys(year, easter, observed);
    var hs := YearHolidays(year, easter, observed);
    var i :| 0 <= i < |hs| && hs[i] == h1;
    var j :| 0 <= j < |hs| && hs[j] == h2;
    assert !(i < j) && !(j < i);
  }

  /**
   * Every fixed date of a year after 1962 holds exactly its own holiday: the
   * entry on 1 January is New Year's Day, and so on.
   */
  lemma FixedDateHolidays(year: int, easter: Date, observed: bool, h: Holiday)
    requires EasterWindow(year, easter) && year > LAST_YEAR_WITHOUT_HOLIDAYS
    requires h in YearHolidays(year, easter, observed)
    ensures h.date == Date(year, JAN, 1) ==> h.name == NEW_YEARS_DAY
    ensures h.date == Date(year, MAY, 1) ==> h.name == LABOUR_DAY
    ensures h.date == Date(year, JUN, 3) ==> h.name == MARTYRS_DAY
    ensures h.date == Date(year, JUN, 9) ==> h.name == HEROES_DAY
    ensures h.date == Date(year, OCT, 9) ==> h.name == INDEPENDENCE_DAY
    ensures h.date == Date(year, DEC, 25) ==> h.name == CHRISTMAS_DAY
    ensures h.date == Date(year, DEC, 26) ==> h.name == BOXING_DAY
  {
    EasterRange(year, easter);
    CivilHolidays(year, easter, observed);
    if h.date == Date(year, JAN, 1) {
      OneHolidayPerDate(year, easter, observed, h, Holiday(Date(year, JAN, 1), NEW_YEARS_DAY));
    } else if h.date == Date(year, MAY, 1) {
      OneHolidayPerDate(year, easter, observed, h, Holiday(Date(year, MAY, 1), LABOUR_DAY));
    } else if h.date == Date(year, JUN, 3) {
      OneHolidayPerDate(year, easter, observed, h, Holiday(Date(year, JUN, 3), MARTYRS_DAY));
    } else if h.date == Date(year, JUN, 9) {
      OneHolidayPerDate(year, easter, observed, h, Holiday(Date(year, JUN, 9), HEROES_DAY));
    } else if h.date == Date(year, OCT, 9) {
      OneHolidayPerDate(year, easter, observed, h, Holiday(Date(year, OCT, 9), INDEPENDENCE_DAY));
    } else if h.date == Date(year, DEC, 25) {
      OneHolidayPerDate(year, easter, observed, h, Holiday(Date(year, DEC, 25), CHRISTMAS_DAY));
    } else if h.date == Date(year, DEC, 26) {
      OneHolidayPerDate(year, easter, observed, h, Holiday(Date(year, DEC, 26), BOXING_DAY));
    }
  }
}
