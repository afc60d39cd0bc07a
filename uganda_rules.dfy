/**
 * The holiday rules of Uganda as data: each rule is a dated, named holiday
 * that may carry an observed shift, and one year's holidays are what the
 * rules in force that year expand to. The `Uganda` class is proved to append
 * exactly `YearHolidays(year, easter, observed)` when it populates a year.
 */
module UgandaRules {
  import opened Wrappers
  import opened Dates

  /** One entry of the holiday set. */
  datatype Holiday = Holiday(date: Date, name: string)

  /**
   * A holiday rule: its date in the year, its name, and the day offset of its
   * substitute when the date is a Sunday (None for a rule that is never shifted).
   */
  datatype Rule = Rule(date: Date, name: string, shift: Option<int>)

  const NEW_YEARS_DAY := "New Year's Day"
  const GOOD_FRIDAY := "Good Friday"
  const EASTER_MONDAY := "Easter Monday"
  const LABOUR_DAY := "Labour Day"
  const LIBERATION_DAY := "Liberation Day"
  const JANANI_LUWUM_DAY := "Archbishop Janani Luwum Day"
  const MARTYRS_DAY := "Uganda Martyrs' Day"
  const HEROES_DAY := "National Heroes' Day"
  const INDEPENDENCE_DAY := "Independence Day"
  const CHRISTMAS_DAY := "Christmas Day"
  const BOXING_DAY := "Boxing Day"
  const OBSERVED_SUFFIX := " (Observed)"

  /** The last year before any holiday is defined (independence came in October 1962). */
  const LAST_YEAR_WITHOUT_HOLIDAYS := 1962
  const LIBERATION_DAY_SINCE := 1986
  const JANANI_LUWUM_DAY_SINCE := 2015

  function ObservedName(name: string): (r: string)
    ensures |r| == |name| + |OBSERVED_SUFFIX| && r[|r| - 1] == ')'
  {
    name + OBSERVED_SUFFIX
  }

  /** Two rules with different names never give the same substitute name. */
  lemma ObservedNameInjective(a: string, b: string)
    requires ObservedName(a) == ObservedName(b)
    ensures a == b
  {
    assert a == ObservedName(a)[..|a|];
    assert b == ObservedName(b)[..|b|];
  }

  /** Whether a rule's date gets a substitute: the rule is shiftable, `observed` is on, and the date is a Sunday. */
  predicate Shifts(r: Rule, observed: bool)
    requires Valid(r.date)
  {
    r.shift.Some? && observed && IsSunday(r.date)
  }

  function Base(r: Rule): Holiday
  {
    Holiday(r.date, r.name)
  }

  /** The substitute entry of a shiftable rule: `shift` days later, named "<name> (Observed)". */
  function Substitute(r: Rule): (h: Holiday)
    requires Valid(r.date) && r.shift.Some?
    ensures Valid(h.date) && DayNumber(h.date) == DayNumber(r.date) + r.shift.value
  {
    Holiday(AddDays(r.date, r.shift.value), ObservedName(r.name))
  }

  /**
   * What one rule adds: its own entry, then a second entry exactly when the
   * rule is shiftable, `observed` is on and its date is a Sunday: the rule's
   * `Substitute`.
   */
  function Contribution(r: Rule, observed: bool): (c: seq<Holiday>)
    requires Valid(r.date)
    ensures 1 <= |c| <= 2 && c[0] == Holiday(r.date, r.name)
    ensures |c| == 2 <==> r.shift.Some? && observed && IsSunday(r.date)
    ensures |c| == 2 ==> c[1] == Substitute(r)
  {
    [Base(r)] + if Shifts(r, observed) then [Substitute(r)] else []
  }

  predicate ValidRules(rules: seq<Rule>)
  {
    forall r :: r in rules ==> Valid(r.date)
  }

  /**
   * The entries the rules add, in rule order: one per rule plus at most one
   * substitute each, and exactly one per rule with `observed` off.
   */
  function Expand(rules: seq<Rule>, observed: bool): (hs: seq<Holiday>)
    requires ValidRules(rules)
    ensures |rules| <= |hs| <= 2 * |rules|
    ensures !observed ==> |hs| == |rules|
  {
    if rules == [] then []
    else Expand(rules[..|rules| - 1], observed) + Contribution(rules[|rules| - 1], observed)
  }

  lemma ExpandSnoc(rules: seq<Rule>, r: Rule, observed: bool)
    requires ValidRules(rules) && Valid(r.date)
    ensures ValidRules(rules + [r])
    ensures Expand(rules + [r], observed) == Expand(rules, observed) + Contribution(r, observed)
  {
    assert (rules + [r])[..|rules|] == rules;
  }

  /** Every rule's own entry is added. */
  lemma {:induction false} ExpandHasBase(rules: seq<Rule>, observed: bool, r: Rule)
    requires ValidRules(rules) && r in rules
    ensures Base(r) in Expand(rules, observed)
  {
    var last := rules[|rules| - 1];
    if r != last {
      assert r in rules[..|rules| - 1];
      ExpandHasBase(rules[..|rules| - 1], observed, r);
    }
  }

  /** The substitute of every rule that shifts is added. */
  lemma {:induction false} ExpandHasSubstitute(rules: seq<Rule>, observed: bool, r: Rule)
    requires ValidRules(rules) && r in rules && Shifts(r, observed)
    ensures Substitute(r) in Expand(rules, observed)
  {
    var last := rules[|rules| - 1];
    if r != last {
      assert r in rules[..|rules| - 1];
      ExpandHasSubstitute(rules[..|rules| - 1], observed, r);
    }
  }

  /** Nothing else is added: every entry is a rule's own entry or the substitute of a rule that shifts. */
  lemma {:induction false} ExpandOrigin(rules: seq<Rule>, observed: bool, h: Holiday)
    requires ValidRules(rules) && h in Expand(rules, observed)
    ensures exists r :: r in rules && (h == Base(r) || (Shifts(r, observed) && h == Substitute(r)))
  {
    var init := rules[..|rules| - 1];
    var last := rules[|rules| - 1];
    if h in Expand(init, observed) {
      ExpandOrigin(init, observed, h);
      var r :| r in init && (h == Base(r) || (Shifts(r, observed) && h == Substitute(r)));
      assert r in rules;
    } else {
      assert h in Contribution(last, observed);
      assert last in rules;
    }
  }

  /**
   * The rules in force in `year` (for a year after 1962), in the order the
   * source adds them. `easter` is Easter Sunday of that year.
   */
  function Rules(year: int, easter: Date): (rules: seq<Rule>)
    requires Valid(easter)
    ensures ValidRules(rules)
  {
    OpeningRules(year, easter) + ClosingRules(year)
  }

  /** The rules up to Archbishop Janani Luwum Day: the civil and Easter holidays, then the two gated ones. */
  function OpeningRules(year: int, easter: Date): (opening: seq<Rule>)
    requires Valid(easter)
    ensures ValidRules(opening)
    ensures forall r :: r in opening ==> r.name != MARTYRS_DAY
  {
    var civil, liberation, luwum := CivilRules(year, easter), LiberationRules(year), LuwumRules(year);
    assert ValidRules(civil) && ValidRules(liberation) && ValidRules(luwum);
    civil + liberation + luwum
  }

  /** New Year's Day, Good Friday, Easter Monday and Labour Day. */
  function CivilRules(year: int, easter: Date): (civil: seq<Rule>)
    requires Valid(easter)
    ensures ValidRules(civil)
  {
    [ Rule(Date(year, JAN, 1), NEW_YEARS_DAY, Some(1)),
      Rule(AddDays(easter, -2), GOOD_FRIDAY, None),
      Rule(AddDays(easter, 1), EASTER_MONDAY, None),
      Rule(Date(year, MAY, 1), LABOUR_DAY, Some(1)) ]
  }

  /** Liberation Day, from 1986 on. */
  function LiberationRules(year: int): (liberation: seq<Rule>)
    ensures ValidRules(liberation)
  {
    if year >= LIBERATION_DAY_SINCE then [Rule(Date(year, JAN, 26), LIBERATION_DAY, Some(1))] else []
  }

  /** Archbishop Janani Luwum Day, from 2015 on. */
  function LuwumRules(year: int): (luwum: seq<Rule>)
    ensures ValidRules(luwum)
  {
    if year >= JANANI_LUWUM_DAY_SINCE then [Rule(Date(year, FEB, 16), JANANI_LUWUM_DAY, Some(1))] else []
  }

  /** The rules from Uganda Martyrs' Day to Boxing Day. */
  function ClosingRules(year: int): (closing: seq<Rule>)
    ensures ValidRules(closing)
  {
    [ Rule(Date(year, JUN, 3), MARTYRS_DAY, Some(1)),
      Rule(Date(year, JUN, 9), HEROES_DAY, Some(1)),
      Rule(Date(year, OCT, 9), INDEPENDENCE_DAY, Some(1)),
      Rule(Date(year, DEC, 25), CHRISTMAS_DAY, Some(2)),
      Rule(Date(year, DEC, 26), BOXING_DAY, Some(1)) ]
  }

  /** The entries one population of `year` adds: none exactly when the year is 1962 or earlier. */
  function YearHolidays(year: int, easter: Date, observed: bool): (hs: seq<Holiday>)
    requires Valid(easter)
    ensures hs == [] <==> year <= LAST_YEAR_WITHOUT_HOLIDAYS
  {
    if year <= LAST_YEAR_WITHOUT_HOLIDAYS then [] else Expand(Rules(year, easter), observed)
  }

  lemma {:induction false} ExpandConcat(a: seq<Rule>, b: seq<Rule>, observed: bool)
    requires ValidRules(a) && ValidRules(b)
    ensures ValidRules(a + b)
    ensures Expand(a + b, observed) == Expand(a, observed) + Expand(b, observed)
  {
    if b == [] {
      assert a + b == a;
    } else {
      var b', last := b[..|b| - 1], b[|b| - 1];
      assert b == b' + [last];
      assert a + b == (a + b') + [last];
      ExpandConcat(a, b', observed);
      ExpandSnoc(a + b', last, observed);
      ExpandSnoc(b', last, observed);
      AppendAssoc(Expand(a, observed), Expand(b', observed), Contribution(last, observed));
    }
  }

  lemma AppendAssoc(x: seq<Holiday>, y: seq<Holiday>, z: seq<Holiday>)
    ensures x + y + z == x + (y + z)
  {
  }

  /** The entries of a year after 1962 are those of the opening rules, then those of the closing rules. */
  lemma YearHolidaysSplit(year: int, easter: Date, observed: bool)
    requires Valid(easter) && year > LAST_YEAR_WITHOUT_HOLIDAYS
    ensures YearHolidays(year, easter, observed)
         == Expand(OpeningRules(year, easter), observed) + Expand(ClosingRules(year), observed)
  {
    YearHolidaysSplitAfter(year, easter, observed, []);
    assert [] + YearHolidays(year, easter, observed) == YearHolidays(year, easter, observed);
    assert [] + Expand(OpeningRules(year, easter), observed) == Expand(OpeningRules(year, easter), observed);
  }

  /** `YearHolidaysSplit` with the entries appended to an earlier sequence. */
  lemma YearHolidaysSplitAfter(year: int, easter: Date, observed: bool, start: seq<Holiday>)
    requires Valid(easter) && year > LAST_YEAR_WITHOUT_HOLIDAYS
    ensures start + YearHolidays(year, easter, observed)
         == start + Expand(OpeningRules(year, easter), observed) + Expand(ClosingRules(year), observed)
  {
    ExpandConcat(OpeningRules(year, easter), ClosingRules(year), observed);
  }

  /** `ExpandSnoc` with the entries appended to an earlier sequence. */
  lemma ExpandSnocAfter(start: seq<Holiday>, rules: seq<Rule>, r: Rule, observed: bool)
    requires ValidRules(rules) && Valid(r.date)
    ensures ValidRules(rules + [r])
    ensures start + Expand(rules + [r], observed) == start + Expand(rules, observed) + Contribution(r, observed)
  {
    ExpandSnoc(rules, r, observed);
  }

  /** `ExpandConcat` with the entries appended to an earlier sequence. */
  lemma ExpandConcatAfter(start: seq<Holiday>, a: seq<Rule>, b: seq<Rule>, observed: bool)
    requires ValidRules(a) && ValidRules(b)
    ensures ValidRules(a + b)
    ensures start + Expand(a + b, observed) == start + Expand(a, observed) + Expand(b, observed)
  {
    ExpandConcat(a, b, observed);
  }

  /** The entries of four rules, one rule after the other. */
  lemma ExpandFour(start: seq<Holiday>, r1: Rule, r2: Rule, r3: Rule, r4: Rule, observed: bool)
    requires Valid(r1.date) && Valid(r2.date) && Valid(r3.date) && Valid(r4.date)
    ensures ValidRules([r1, r2, r3, r4])
    ensures start + Expand([r1, r2, r3, r4], observed)
         == start + Contribution(r1, observed) + Contribution(r2, observed) + Contribution(r3, observed) + Contribution(r4, observed)
  {
    ExpandSnocAfter(start, [], r1, observed);
    assert [] + [r1] == [r1];
    assert start + Expand([r1], observed) == start + Contribution(r1, observed);
    ExpandSnocAfter(start, [r1], r2, observed);
    assert [r1] + [r2] == [r1, r2];
    assert start + Expand([r1, r2], observed) == start + Contribution(r1, observed) + Contribution(r2, observed);
    ExpandSnocAfter(start, [r1, r2], r3, observed);
    assert [r1, r2] + [r3] == [r1, r2, r3];
    assert start + Expand([r1, r2, r3], observed)
        == start + Contribution(r1, observed) + Contribution(r2, observed) + Contribution(r3, observed);
    ExpandSnocAfter(start, [r1, r2, r3], r4, observed);
    assert [r1, r2, r3] + [r4] == [r1, r2, r3, r4];
  }

  /**
   * The entries of the first four rules, which every year after 1962 has, in
   * the order of the calls in the source; Good Friday and Easter Monday add
   * only their own entry.
   */
  lemma CivilInOrder(year: int, easter: Date, observed: bool)
    requires Valid(easter)
    ensures Expand(CivilRules(year, easter), observed)
         == Contribution(Rule(Date(year, JAN, 1), NEW_YEARS_DAY, Some(1)), observed)
            + [Holiday(AddDays(easter, -2), GOOD_FRIDAY)]
            + [Holiday(AddDays(easter, 1), EASTER_MONDAY)]
            + Contribution(Rule(Date(year, MAY, 1), LABOUR_DAY, Some(1)), observed)
  {
    var c1 := Contribution(Rule(Date(year, JAN, 1), NEW_YEARS_DAY, Some(1)), observed);
    CivilInOrderAfter(year, easter, observed, []);
    assert [] + Expand(CivilRules(year, easter), observed) == Expand(CivilRules(year, easter), observed);
    assert [] + c1 == c1;
  }

  /** `CivilInOrder` with the entries appended to an earlier sequence. */
  lemma CivilInOrderAfter(year: int, easter: Date, observed: bool, start: seq<Holiday>)
    requires Valid(easter)
    ensures start + Expand(CivilRules(year, easter), observed)
         == start
            + Contribution(Rule(Date(year, JAN, 1), NEW_YEARS_DAY, Some(1)), observed)
            + [Holiday(AddDays(easter, -2), GOOD_FRIDAY)]
            + [Holiday(AddDays(easter, 1), EASTER_MONDAY)]
            + Contribution(Rule(Date(year, MAY, 1), LABOUR_DAY, Some(1)), observed)
  {
    var goodFriday, easterMonday := Rule(AddDays(easter, -2), GOOD_FRIDAY, None), Rule(AddDays(easter, 1), EASTER_MONDAY, None);
    ExpandFour(start, Rule(Date(year, JAN, 1), NEW_YEARS_DAY, Some(1)), goodFriday, easterMonday,
               Rule(Date(year, MAY, 1), LABOUR_DAY, Some(1)), observed);
    assert Contribution(goodFriday, observed) == [Base(goodFriday)];
    assert Contribution(easterMonday, observed) == [Base(easterMonday)];
  }

  /** The entries of a gated rule: its contribution in the years it applies, nothing before. */
  lemma GatedInOrder(year: int, observed: bool)
    ensures Expand(LiberationRules(year), observed)
         == if year >= LIBERATION_DAY_SINCE then Contribution(Rule(Date(year, JAN, 26), LIBERATION_DAY, Some(1)), observed) else []
    ensures Expand(LuwumRules(year), observed)
         == if year >= JANANI_LUWUM_DAY_SINCE then Contribution(Rule(Date(year, FEB, 16), JANANI_LUWUM_DAY, Some(1)), observed) else []
  {
    ExpandSnoc([], Rule(Date(year, JAN, 26), LIBERATION_DAY, Some(1)), observed);
    ExpandSnoc([], Rule(Date(year, FEB, 16), JANANI_LUWUM_DAY, Some(1)), observed);
  }

  /** The entries of the opening rules: those of the civil rules, then those of the two gated ones. */
  lemma OpeningSplit(year: int, easter: Date, observed: bool)
    requires Valid(easter)
    ensures Expand(OpeningRules(year, easter), observed)
         == Expand(CivilRules(year, easter), observed) + Expand(LiberationRules(year), observed) + Expand(LuwumRules(year), observed)
  {
    OpeningSplitAfter(year, easter, observed, []);
    assert [] + Expand(OpeningRules(year, easter), observed) == Expand(OpeningRules(year, easter), observed);
    assert [] + Expand(CivilRules(year, easter), observed) == Expand(CivilRules(year, easter), observed);
  }

  /** `OpeningSplit` with the entries appended to an earlier sequence. */
  lemma OpeningSplitAfter(year: int, easter: Date, observed: bool, start: seq<Holiday>)
    requires Valid(easter)
    ensures start + Expand(OpeningRules(year, easter), observed)
         == start + Expand(CivilRules(year, easter), observed) + Expand(LiberationRules(year), observed) + Expand(LuwumRules(year), observed)
  {
    var civil, liberation, luwum := CivilRules(year, easter), LiberationRules(year), LuwumRules(year);
    ExpandConcatAfter(start, civil, liberation, observed);
    ExpandConcatAfter(start, civil + liberation, luwum, observed);
  }

  /** The entries of the closing rules, rule by rule in the order of the calls in the source. */
  lemma ClosingInOrder(year: int, observed: bool)
    ensures Expand(ClosingRules(year), observed)
         == Contribution(Rule(Date(year, JUN, 3), MARTYRS_DAY, Some(1)), observed)
            + Contribution(Rule(Date(year, JUN, 9), HEROES_DAY, Some(1)), observed)
            + Contribution(Rule(Date(year, OCT, 9), INDEPENDENCE_DAY, Some(1)), observed)
            + Contribution(Rule(Date(year, DEC, 25), CHRISTMAS_DAY, Some(2)), observed)
            + Contribution(Rule(Date(year, DEC, 26), BOXING_DAY, Some(1)), observed)
  {
    var c7 := Contribution(Rule(Date(year, JUN, 3), MARTYRS_DAY, Some(1)), observed);
    ClosingInOrderAfter(year, observed, []);
    assert [] + Expand(ClosingRules(year), observed) == Expand(ClosingRules(year), observed);
    assert [] + c7 == c7;
  }

  /** `ClosingInOrder` with the entries appended to an earlier sequence. */
  lemma ClosingInOrderAfter(year: int, observed: bool, start: seq<Holiday>)
    ensures start + Expand(ClosingRules(year), observed)
         == start
            + Contribution(Rule(Date(year, JUN, 3), MARTYRS_DAY, Some(1)), observed)
            + Contribution(Rule(Date(year, JUN, 9), HEROES_DAY, Some(1)), observed)
            + Contribution(Rule(Date(year, OCT, 9), INDEPENDENCE_DAY, Some(1)), observed)
            + Contribution(Rule(Date(year, DEC, 25), CHRISTMAS_DAY, Some(2)), observed)
            + Contribution(Rule(Date(year, DEC, 26), BOXING_DAY, Some(1)), observed)
  {
    var r7, r8 := Rule(Date(year, JUN, 3), MARTYRS_DAY, Some(1)), Rule(Date(year, JUN, 9), HEROES_DAY, Some(1));
    var r9, r10 := Rule(Date(year, OCT, 9), INDEPENDENCE_DAY, Some(1)), Rule(Date(year, DEC, 25), CHRISTMAS_DAY, Some(2));
    var r11 := Rule(Date(year, DEC, 26), BOXING_DAY, Some(1));
    ExpandFour(start, r7, r8, r9, r10, observed);
    ExpandSnocAfter(start, [r7, r8, r9, r10], r11, observed);
    assert [r7, r8, r9, r10] + [r11] == ClosingRules(year);
  }

  /** No rule name has the form of a substitute name: every one ends in "y". */
  lemma RuleNamesPlain(year: int, easter: Date, r: Rule)
    requires Valid(easter) && r in Rules(year, easter)
    ensures |r.name| > 0 && r.name[|r.name| - 1] != ')'
  {
    RulesNamed(year, easter);
    var rules := Rules(year, easter);
    var i :| 0 <= i < |rules| && rules[i] == r;
    assert r.name == NamesOf(rules)[i];
    RuleNamesEndInY(year, r.name);
  }

  lemma RuleNamesEndInY(year: int, name: string)
    requires name in RuleNames(year)
    ensures |name| > 0 && name[|name| - 1] == 'y'
  {
    assert NEW_YEARS_DAY[13] == GOOD_FRIDAY[10] == EASTER_MONDAY[12] == LABOUR_DAY[9] == 'y';
    assert LIBERATION_DAY[13] == JANANI_LUWUM_DAY[26] == 'y';
    assert MARTYRS_DAY[18] == HEROES_DAY[19] == INDEPENDENCE_DAY[15] == CHRISTMAS_DAY[12] == BOXING_DAY[9] == 'y';
  }

  predicate DistinctNames(names: seq<string>)
  {
    forall i, j :: 0 <= i < j < |names| ==> names[i] != names[j]
  }

  /** The names of the rules of `year`, in rule order. */
  function RuleNames(year: int): seq<string>
  {
    [NEW_YEARS_DAY, GOOD_FRIDAY, EASTER_MONDAY, LABOUR_DAY]
    + (if year >= LIBERATION_DAY_SINCE then [LIBERATION_DAY] else [])
    + (if year >= JANANI_LUWUM_DAY_SINCE then [JANANI_LUWUM_DAY] else [])
    + [MARTYRS_DAY, HEROES_DAY, INDEPENDENCE_DAY, CHRISTMAS_DAY, BOXING_DAY]
  }

  lemma RuleNamesDistinctByYear(year: int)
    ensures DistinctNames(RuleNames(year))
  {
    if year >= JANANI_LUWUM_DAY_SINCE {
      assert RuleNames(year) == [NEW_YEARS_DAY, GOOD_FRIDAY, EASTER_MONDAY, LABOUR_DAY, LIBERATION_DAY, JANANI_LUWUM_DAY,
                                 MARTYRS_DAY, HEROES_DAY, INDEPENDENCE_DAY, CHRISTMAS_DAY, BOXING_DAY];
    } else if year >= LIBERATION_DAY_SINCE {
      assert RuleNames(year) == [NEW_YEARS_DAY, GOOD_FRIDAY, EASTER_MONDAY, LABOUR_DAY, LIBERATION_DAY,
                                 MARTYRS_DAY, HEROES_DAY, INDEPENDENCE_DAY, CHRISTMAS_DAY, BOXING_DAY];
    } else {
      assert RuleNames(year) == [NEW_YEARS_DAY, GOOD_FRIDAY, EASTER_MONDAY, LABOUR_DAY,
                                 MARTYRS_DAY, HEROES_DAY, INDEPENDENCE_DAY, CHRISTMAS_DAY, BOXING_DAY];
    }
  }

  function NamesOf(rules: seq<Rule>): (names: seq<string>)
    ensures |names| == |rules| && forall i :: 0 <= i < |rules| ==> names[i] == rules[i].name
  {
    seq(|rules|, i requires 0 <= i < |rules| => rules[i].name)
  }

  lemma RulesNamed(year: int, easter: Date)
    requires Valid(easter)
    ensures NamesOf(Rules(year, easter)) == RuleNames(year)
  {
    var civil, liberation, luwum, closing := CivilRules(year, easter), LiberationRules(year), LuwumRules(year), ClosingRules(year);
    PartsNamed(year, easter);
    NamesOfConcat(civil, liberation);
    NamesOfConcat(civil + liberation, luwum);
    NamesOfConcat(civil + liberation + luwum, closing);
  }

  lemma PartsNamed(year: int, easter: Date)
    requires Valid(easter)
    ensures NamesOf(CivilRules(year, easter)) == [NEW_YEARS_DAY, GOOD_FRIDAY, EASTER_MONDAY, LABOUR_DAY]
    ensures NamesOf(LiberationRules(year)) == if year >= LIBERATION_DAY_SINCE then [LIBERATION_DAY] else []
    ensures NamesOf(LuwumRules(year)) == if year >= JANANI_LUWUM_DAY_SINCE then [JANANI_LUWUM_DAY] else []
    ensures NamesOf(ClosingRules(year)) == [MARTYRS_DAY, HEROES_DAY, INDEPENDENCE_DAY, CHRISTMAS_DAY, BOXING_DAY]
  {
    CivilNamed(year, easter);
    ClosingNamed(year);
  }

  lemma CivilNamed(year: int, easter: Date)
    requires Valid(easter)
    ensures NamesOf(CivilRules(year, easter)) == [NEW_YEARS_DAY, GOOD_FRIDAY, EASTER_MONDAY, LABOUR_DAY]
  {
    var names := NamesOf(CivilRules(year, easter));
    assert names[0] == NEW_YEARS_DAY && names[1] == GOOD_FRIDAY && names[2] == EASTER_MONDAY && names[3] == LABOUR_DAY;
  }

  lemma ClosingNamed(year: int)
    ensures NamesOf(ClosingRules(year)) == [MARTYRS_DAY, HEROES_DAY, INDEPENDENCE_DAY, CHRISTMAS_DAY, BOXING_DAY]
  {
    var names := NamesOf(ClosingRules(year));
    assert names[0] == MARTYRS_DAY && names[1] == HEROES_DAY && names[2] == INDEPENDENCE_DAY;
    assert names[3] == CHRISTMAS_DAY && names[4] == BOXING_DAY;
  }

  lemma NamesOfConcat(a: seq<Rule>, b: seq<Rule>)
    ensures NamesOf(a + b) == NamesOf(a) + NamesOf(b)
  {
  }

  /** Two rules of a year with the same name are the same rule. */
  lemma RuleNameUnique(year: int, easter: Date, r1: Rule, r2: Rule)
    requires Valid(easter) && r1 in Rules(year, easter) && r2 in Rules(year, easter)
    requires r1.name == r2.name
    ensures r1 == r2
  {
    RulesNamed(year, easter);
    RuleNamesDistinctByYear(year);
    NamedOnce(Rules(year, easter), r1, r2);
  }

  /** In rules whose names are all different, a name picks out one rule. */
  lemma NamedOnce(rules: seq<Rule>, r1: Rule, r2: Rule)
    requires DistinctNames(NamesOf(rules)) && r1 in rules && r2 in rules && r1.name == r2.name
    ensures r1 == r2
  {
    var i :| 0 <= i < |rules| && rules[i] == r1;
    var j :| 0 <= j < |rules| && rules[j] == r2;
    assert NamesOf(rules)[i] == r1.name && NamesOf(rules)[j] == r2.name;
    assert !(i < j) && !(j < i);
  }

  /** A year's substitute for a shiftable rule is present exactly when the rule shifts. */
  lemma SubstituteIff(year: int, easter: Date, observed: bool, r: Rule)
    requires Valid(easter) && year > LAST_YEAR_WITHOUT_HOLIDAYS
    requires r in Rules(year, easter) && r.shift.Some?
    ensures Substitute(r) in YearHolidays(year, easter, observed) <==> Shifts(r, observed)
  {
    var rules := Rules(year, easter);
    if Shifts(r, observed) {
      ExpandHasSubstitute(rules, observed, r);
    }
    if Substitute(r) in Expand(rules, observed) {
      ExpandOrigin(rules, observed, Substitute(r));
      var r' :| r' in rules && (Substitute(r) == Base(r') || (Shifts(r', observed) && Substitute(r) == Substitute(r')));
      RuleNamesPlain(year, easter, r');
      assert Substitute(r) != Base(r');
      ObservedNameInjective(r.name, r'.name);
      RuleNameUnique(year, easter, r, r');
    }
  }

  /** Every entry of a year is named after a rule of that year, or is that name with " (Observed)". */
  lemma EntryNames(year: int, easter: Date, observed: bool, h: Holiday)
    requires Valid(easter) && h in YearHolidays(year, easter, observed)
    ensures h.name in RuleNames(year) || exists n :: n in RuleNames(year) && h.name == ObservedName(n)
  {
    ExpandNames(Rules(year, easter), observed, h);
    RulesNamed(year, easter);
  }

  /** Every entry is named after one of the rules, plainly or as its substitute. */
  lemma ExpandNames(rules: seq<Rule>, observed: bool, h: Holiday)
    requires ValidRules(rules) && h in Expand(rules, observed)
    ensures h.name in NamesOf(rules) || exists n :: n in NamesOf(rules) && h.name == ObservedName(n)
  {
    ExpandOrigin(rules, observed, h);
    var r :| r in rules && (h == Base(r) || (Shifts(r, observed) && h == Substitute(r)));
    var i :| 0 <= i < |rules| && rules[i] == r;
    assert r.name == NamesOf(rules)[i];
  }

  /** A plain name (not a substitute name) appears in a year exactly when the year has a rule of that name. */
  lemma NamedEntry(year: int, easter: Date, observed: bool, name: string)
    requires Valid(easter) && |name| > 0 && name[|name| - 1] != ')'
    ensures (exists h :: h in YearHolidays(year, easter, observed) && h.name == name)
            <==> year > LAST_YEAR_WITHOUT_HOLIDAYS && name in RuleNames(year)
  {
    if year > LAST_YEAR_WITHOUT_HOLIDAYS && name in RuleNames(year) {
      var rules := Rules(year, easter);
      RulesNamed(year, easter);
      var i :| 0 <= i < |RuleNames(year)| && RuleNames(year)[i] == name;
      assert NamesOf(rules)[i] == name;
      assert rules[i] in rules;
      ExpandHasBase(rules, observed, rules[i]);
      assert Base(rules[i]).name == name;
    }
    forall h | h in YearHolidays(year, easter, observed) && h.name == name
      ensures year > LAST_YEAR_WITHOUT_HOLIDAYS && name in RuleNames(year)
    {
      forall n ensures h.name != ObservedName(n) {
        assert ObservedName(n)[|ObservedName(n)| - 1] == ')';
      }
      EntryNames(year, easter, observed, h);
    }
  }

  /** Liberation Day (26 January) is a holiday from 1986 on, and in no earlier year. */
  lemma LiberationDayGate(year: int, easter: Date, observed: bool)
    requires Valid(easter)
    ensures (exists h :: h in YearHolidays(year, easter, observed) && h.name == LIBERATION_DAY) <==> year >= LIBERATION_DAY_SINCE
    ensures year >= LIBERATION_DAY_SINCE ==> Holiday(Date(year, JAN, 26), LIBERATION_DAY) in YearHolidays(year, easter, observed)
  {
    assert LIBERATION_DAY[|LIBERATION_DAY| - 1] == 'y';
    NamedEntry(year, easter, observed, LIBERATION_DAY);
    GatedNames(year);
    if year >= LIBERATION_DAY_SINCE {
      GatedRules(year, easter);
      ExpandHasBase(Rules(year, easter), observed, Rule(Date(year, JAN, 26), LIBERATION_DAY, Some(1)));
    }
  }

  /** Archbishop Janani Luwum Day (16 February) is a holiday from 2015 on, and in no earlier year. */
  lemma JananiLuwumDayGate(year: int, easter: Date, observed: bool)
    requires Valid(easter)
    ensures (exists h :: h in YearHolidays(year, easter, observed) && h.name == JANANI_LUWUM_DAY) <==> year >= JANANI_LUWUM_DAY_SINCE
    ensures year >= JANANI_LUWUM_DAY_SINCE ==> Holiday(Date(year, FEB, 16), JANANI_LUWUM_DAY) in YearHolidays(year, easter, observed)
  {
    assert JANANI_LUWUM_DAY[|JANANI_LUWUM_DAY| - 1] == 'y';
    NamedEntry(year, easter, observed, JANANI_LUWUM_DAY);
    GatedNames(year);
    if year >= JANANI_LUWUM_DAY_SINCE {
      GatedRules(year, easter);
      ExpandHasBase(Rules(year, easter), observed, Rule(Date(year, FEB, 16), JANANI_LUWUM_DAY, Some(1)));
    }
  }

  /** The two gated names are among a year's rule names exactly from their first year on. */
  lemma GatedNames(year: int)
    ensures LIBERATION_DAY in RuleNames(year) <==> year >= LIBERATION_DAY_SINCE
    ensures JANANI_LUWUM_DAY in RuleNames(year) <==> year >= JANANI_LUWUM_DAY_SINCE
  {
    var civil := [NEW_YEARS_DAY, GOOD_FRIDAY, EASTER_MONDAY, LABOUR_DAY];
    var closing := [MARTYRS_DAY, HEROES_DAY, INDEPENDENCE_DAY, CHRISTMAS_DAY, BOXING_DAY];
    assert NEW_YEARS_DAY[0] == 'N' && GOOD_FRIDAY[0] == 'G' && EASTER_MONDAY[0] == 'E' && LABOUR_DAY[0] == 'L';
    assert MARTYRS_DAY[0] == 'U' && HEROES_DAY[0] == 'N' && INDEPENDENCE_DAY[0] == 'I' && CHRISTMAS_DAY[0] == 'C' && BOXING_DAY[0] == 'B';
    assert LIBERATION_DAY[0] == 'L' && LIBERATION_DAY[1] == 'i' && LABOUR_DAY[1] == 'a';
    assert JANANI_LUWUM_DAY[0] == 'A';
    assert LIBERATION_DAY !in civil + closing && JANANI_LUWUM_DAY !in civil + closing;
    assert LIBERATION_DAY != JANANI_LUWUM_DAY;
  }

  /** The two gated rules are among a year's rules from their first year on. */
  lemma GatedRules(year: int, easter: Date)
    requires Valid(easter)
    ensures year >= LIBERATION_DAY_SINCE ==> Rule(Date(year, JAN, 26), LIBERATION_DAY, Some(1)) in Rules(year, easter)
    ensures year >= JANANI_LUWUM_DAY_SINCE ==> Rule(Date(year, FEB, 16), JANANI_LUWUM_DAY, Some(1)) in Rules(year, easter)
  {
    var civil, liberation, luwum := CivilRules(year, easter), LiberationRules(year), LuwumRules(year);
    assert Rules(year, easter) == civil + liberation + luwum + ClosingRules(year);
  }

  /** The gates at their boundaries: absent in 1985 and 2014, present in 1986, 1990 and 2015. */
  lemma GateExamples(easter: Date, observed: bool)
    requires Valid(easter)
    ensures !exists h :: h in YearHolidays(1985, easter, observed) && h.name == LIBERATION_DAY
    ensures Holiday(Date(1986, JAN, 26), LIBERATION_DAY) in YearHolidays(1986, easter, observed)
    ensures Holiday(Date(1990, JAN, 26), LIBERATION_DAY) in YearHolidays(1990, easter, observed)
    ensures !exists h :: h in YearHolidays(2014, easter, observed) && h.name == JANANI_LUWUM_DAY
    ensures Holiday(Date(2015, FEB, 16), JANANI_LUWUM_DAY) in YearHolidays(2015, easter, observed)
  {
    LiberationDayGate(1985, easter, observed);
    LiberationDayGate(1986, easter, observed);
    LiberationDayGate(1990, easter, observed);
    JananiLuwumDayGate(2014, easter, observed);
    JananiLuwumDayGate(2015, easter, observed);
  }

  /** The civil holidays on fixed dates are present in every year after 1962. */
  lemma CivilHolidays(year: int, easter: Date, observed: bool)
    requires Valid(easter) && year > LAST_YEAR_WITHOUT_HOLIDAYS
    ensures Holiday(Date(year, JAN, 1), NEW_YEARS_DAY) in YearHolidays(year, easter, observed)
    ensures Holiday(Date(year, MAY, 1), LABOUR_DAY) in YearHolidays(year, easter, observed)
    ensures Holiday(Date(year, JUN, 3), MARTYRS_DAY) in YearHolidays(year, easter, observed)
    ensures Holiday(Date(year, JUN, 9), HEROES_DAY) in YearHolidays(year, easter, observed)
    ensures Holiday(Date(year, OCT, 9), INDEPENDENCE_DAY) in YearHolidays(year, easter, observed)
    ensures Holiday(Date(year, DEC, 25), CHRISTMAS_DAY) in YearHolidays(year, easter, observed)
    ensures Holiday(Date(year, DEC, 26), BOXING_DAY) in YearHolidays(year, easter, observed)
  {
    var rules := Rules(year, easter);
    ExpandHasBase(rules, observed, Rule(Date(year, JAN, 1), NEW_YEARS_DAY, Some(1)));
    ExpandHasBase(rules, observed, Rule(Date(year, MAY, 1), LABOUR_DAY, Some(1)));
    ExpandHasBase(rules, observed, Rule(Date(year, JUN, 3), MARTYRS_DAY, Some(1)));
    ExpandHasBase(rules, observed, Rule(Date(year, JUN, 9), HEROES_DAY, Some(1)));
    ExpandHasBase(rules, observed, Rule(Date(year, OCT, 9), INDEPENDENCE_DAY, Some(1)));
    ExpandHasBase(rules, observed, Rule(Date(year, DEC, 25), CHRISTMAS_DAY, Some(2)));
    ExpandHasBase(rules, observed, Rule(Date(year, DEC, 26), BOXING_DAY, Some(1)));
  }

  /**
   * Good Friday is two days before Easter Sunday and Easter Monday the day
   * after, in every year after 1962; neither ever gets an observed entry.
   */
  lemma EasterHolidays(year: int, easter: Date, observed: bool)
    requires Valid(easter) && year > LAST_YEAR_WITHOUT_HOLIDAYS
    ensures Holiday(AddDays(easter, -2), GOOD_FRIDAY) in YearHolidays(year, easter, observed)
    ensures Holiday(AddDays(easter, 1), EASTER_MONDAY) in YearHolidays(year, easter, observed)
    ensures DayNumber(AddDays(easter, -2)) + 2 == DayNumber(easter) == DayNumber(AddDays(easter, 1)) - 1
    ensures forall h :: h in YearHolidays(year, easter, observed) ==>
              h.name != ObservedName(GOOD_FRIDAY) && h.name != ObservedName(EASTER_MONDAY)
  {
    var rules := Rules(year, easter);
    var goodFriday := Rule(AddDays(easter, -2), GOOD_FRIDAY, None);
    var easterMonday := Rule(AddDays(easter, 1), EASTER_MONDAY, None);
    ExpandHasBase(rules, observed, goodFriday);
    ExpandHasBase(rules, observed, easterMonday);
    forall h | h in YearHolidays(year, easter, observed)
      ensures h.name != ObservedName(GOOD_FRIDAY) && h.name != ObservedName(EASTER_MONDAY)
    {
      NotSubstituted(year, easter, observed, h, goodFriday);
      NotSubstituted(year, easter, observed, h, easterMonday);
    }
  }

  /** An entry never carries the substitute name of a rule that does not shift. */
  lemma NotSubstituted(year: int, easter: Date, observed: bool, h: Holiday, r: Rule)
    requires Valid(easter) && year > LAST_YEAR_WITHOUT_HOLIDAYS
    requires h in YearHolidays(year, easter, observed) && r in Rules(year, easter) && r.shift.None?
    ensures h.name != ObservedName(r.name)
  {
    var rules := Rules(year, easter);
    ExpandOrigin(rules, observed, h);
    var r' :| r' in rules && (h == Base(r') || (Shifts(r', observed) && h == Substitute(r')));
    RuleNamesPlain(year, easter, r');
    if h == Base(r') {
      assert ObservedName(r.name)[|ObservedName(r.name)| - 1] == ')';
    } else if ObservedName(r'.name) == ObservedName(r.name) {
      ObservedNameInjective(r'.name, r.name);
      RuleNameUnique(year, easter, r', r);
    }
  }

  /** Only Good Friday and Easter Monday are never shifted; Christmas Day shifts by two days, every other rule by one. */
  lemma ShiftDays(year: int, easter: Date, r: Rule)
    requires Valid(easter) && r in Rules(year, easter)
    ensures r.shift.None? <==> r.name == GOOD_FRIDAY || r.name == EASTER_MONDAY
    ensures r.shift.Some? ==> r.shift.value == if r.name == CHRISTMAS_DAY then 2 else 1
  {
    if r in CivilRules(year, easter) {
      CivilShiftDays(year, easter, r);
    } else if r in ClosingRules(year) {
      ClosingShiftDays(year, r);
    }
  }

  lemma CivilShiftDays(year: int, easter: Date, r: Rule)
    requires Valid(easter) && r in CivilRules(year, easter)
    ensures r.shift.None? <==> r.name == GOOD_FRIDAY || r.name == EASTER_MONDAY
    ensures r.shift.Some? ==> r.shift.value == if r.name == CHRISTMAS_DAY then 2 else 1
  {
    assert NEW_YEARS_DAY[0] == 'N' && LABOUR_DAY[0] == 'L' && GOOD_FRIDAY[0] == 'G' && EASTER_MONDAY[0] == 'E' && CHRISTMAS_DAY[0] == 'C';
  }

  lemma ClosingShiftDays(year: int, r: Rule)
    requires r in ClosingRules(year)
    ensures r.shift.None? <==> r.name == GOOD_FRIDAY || r.name == EASTER_MONDAY
    ensures r.shift.Some? ==> r.shift.value == if r.name == CHRISTMAS_DAY then 2 else 1
  {
    assert GOOD_FRIDAY[0] == 'G' && EASTER_MONDAY[0] == 'E' && CHRISTMAS_DAY[0] == 'C';
    assert MARTYRS_DAY[0] == 'U' && HEROES_DAY[0] == 'N' && INDEPENDENCE_DAY[0] == 'I' && BOXING_DAY[0] == 'B';
  }

  /**
   * A substitute lands on the Monday (the Tuesday for Christmas Day) after the
   * Sunday it replaces, so it is never itself a Sunday: one shift is enough.
   */
  lemma SubstituteWeekday(year: int, easter: Date, observed: bool, r: Rule)
    requires Valid(easter) && r in Rules(year, easter) && Shifts(r, observed)
    ensures Weekday(Substitute(r).date) == if r.name == CHRISTMAS_DAY then TUE else MON
    ensures !IsSunday(Substitute(r).date)
  {
    ShiftDays(year, easter, r);
    SundayShift(r.date, r.shift.value);
  }

  /** With `observed` off a year has exactly one entry per rule and no substitute. */
  lemma NoSubstitutesUnobserved(year: int, easter: Date, h: Holiday)
    requires Valid(easter) && year > LAST_YEAR_WITHOUT_HOLIDAYS
    ensures |YearHolidays(year, easter, false)| == |Rules(year, easter)|
    ensures h in YearHolidays(year, easter, false) ==> exists r :: r in Rules(year, easter) && h == Base(r)
  {
    if h in YearHolidays(year, easter, false) {
      ExpandOrigin(Rules(year, easter), false, h);
    }
  }

  /** When Christmas Day is a Sunday its substitute is on 27 December, two days later. */
  lemma ChristmasSubstitute(year: int, easter: Date, observed: bool)
    requires Valid(easter) && year > LAST_YEAR_WITHOUT_HOLIDAYS
    ensures Holiday(Date(year, DEC, 27), ObservedName(CHRISTMAS_DAY)) in YearHolidays(year, easter, observed)
            <==> observed && IsSunday(Date(year, DEC, 25))
  {
    var christmas := Rule(Date(year, DEC, 25), CHRISTMAS_DAY, Some(2));
    assert AddDays(Date(year, DEC, 25), 2) == Date(year, DEC, 27) by {
      assert NextDay(Date(year, DEC, 25)) == Date(year, DEC, 26);
      assert NextDay(Date(year, DEC, 26)) == Date(year, DEC, 27);
    }
    SubstituteIff(year, easter, observed, christmas);
  }

  /** When New Year's Day is a Sunday its substitute is on 2 January. */
  lemma NewYearSubstitute(year: int, easter: Date, observed: bool)
    requires Valid(easter) && year > LAST_YEAR_WITHOUT_HOLIDAYS
    ensures Holiday(Date(year, JAN, 2), ObservedName(NEW_YEARS_DAY)) in YearHolidays(year, easter, observed)
            <==> observed && IsSunday(Date(year, JAN, 1))
  {
    assert AddDays(Date(year, JAN, 1), 1) == Date(year, JAN, 2) by {
      assert NextDay(Date(year, JAN, 1)) == Date(year, JAN, 2);
    }
    SubstituteIff(year, easter, observed, Rule(Date(year, JAN, 1), NEW_YEARS_DAY, Some(1)));
  }

  /** When Boxing Day is a Sunday its substitute is on 27 December. */
  lemma BoxingDaySubstitute(year: int, easter: Date, observed: bool)
    requires Valid(easter) && year > LAST_YEAR_WITHOUT_HOLIDAYS
    ensures Holiday(Date(year, DEC, 27), ObservedName(BOXING_DAY)) in YearHolidays(year, easter, observed)
            <==> observed && IsSunday(Date(year, DEC, 26))
  {
    assert AddDays(Date(year, DEC, 26), 1) == Date(year, DEC, 27) by {
      assert NextDay(Date(year, DEC, 26)) == Date(year, DEC, 27);
    }
    SubstituteIff(year, easter, observed, Rule(Date(year, DEC, 26), BOXING_DAY, Some(1)));
  }

  /** 1 January 2023 was a Sunday: its substitute is Monday 2 January, next to the unshifted entry. */
  lemma NewYear2023(easter: Date)
    requires Valid(easter)
    ensures IsSunday(Date(2023, JAN, 1))
    ensures Holiday(Date(2023, JAN, 1), NEW_YEARS_DAY) in YearHolidays(2023, easter, true)
    ensures Holiday(Date(2023, JAN, 2), ObservedName(NEW_YEARS_DAY)) in YearHolidays(2023, easter, true)
    ensures Holiday(Date(2023, JAN, 2), ObservedName(NEW_YEARS_DAY)) !in YearHolidays(2023, easter, false)
  {
    assert IsSunday(Date(2023, JAN, 1));
    CivilHolidays(2023, easter, true);
    NewYearSubstitute(2023, easter, true);
    NewYearSubstitute(2023, easter, false);
  }

  /**
   * In 2022, 1 January was a Saturday and gets no substitute; 25 December was a
   * Sunday and gets one on 27 December; Boxing Day, a Monday, gets none.
   */
  lemma Year2022(easter: Date)
    requires Valid(easter)
    ensures Weekday(Date(2022, JAN, 1)) == SAT
    ensures Holiday(Date(2022, JAN, 2), ObservedName(NEW_YEARS_DAY)) !in YearHolidays(2022, easter, true)
    ensures Holiday(Date(2022, DEC, 27), ObservedName(CHRISTMAS_DAY)) in YearHolidays(2022, easter, true)
    ensures Holiday(Date(2022, DEC, 27), ObservedName(BOXING_DAY)) !in YearHolidays(2022, easter, true)
  {
    assert Weekday(Date(2022, JAN, 1)) == SAT;
    assert IsSunday(Date(2022, DEC, 25)) && Weekday(Date(2022, DEC, 26)) == MON;
    NewYearSubstitute(2022, easter, true);
    ChristmasSubstitute(2022, easter, true);
    BoxingDaySubstitute(2022, easter, true);
  }

  // Lines 71 and 74 of the source, as written, call `_add_holiday` with a
  // name and no date, and pass JUN and a day to `_add_observed` as two more
  // positional arguments, where `_add_observed(self, dt, days=+1)` takes at
  // most one. `ClosingRules` models the evident intent (3 and 9 June, each
  // with the default one-day substitute); the members below model the calls
  // of lines 70-82 as they are written.

  /**
   * One call `_add_observed(add(name, *dateArgs), *extra, days=...)`: the
   * month and day given to the adding helper, the positional arguments given
   * to `_add_observed` after the date, and its `days` keyword if given. The
   * Christmas helpers count as adding 25 and 26 December.
   */
  datatype Call = Call(name: string, dateArgs: seq<int>, extra: seq<int>, days: Option<int>)

  /**
   * The date the adding helper stores for a call, or None when it raises
   * before storing anything: it needs a month and a day that make a date of
   * the year.
   */
  function CallDate(year: int, c: Call): (d: Option<Date>)
    ensures d.Some? <==> |c.dateArgs| == 2 && Valid(Date(year, c.dateArgs[0], c.dateArgs[1]))
    ensures d.Some? ==> d.value.year == year && d.value.month == c.dateArgs[0] && d.value.day == c.dateArgs[1]
  {
    if |c.dateArgs| == 2 && Valid(Date(year, c.dateArgs[0], c.dateArgs[1])) then Some(Date(year, c.dateArgs[0], c.dateArgs[1]))
    else None
  }

  /** Whether `_add_observed(self, dt, days=+1)` binds what a call passes after the date: one argument at most, by position or by keyword. */
  predicate ObservedBinds(c: Call)
  {
    |c.extra| + (if c.days.Some? then 1 else 0) <= 1
  }

  /**
   * The rule a call adds, or None when it raises: when the adding helper
   * raises, or when `_add_observed` cannot bind its arguments, which happens
   * only after the adding helper has stored the date. `_add_observed`
   * defaults to a one-day shift.
   */
  function CallRule(year: int, c: Call): (r: Option<Rule>)
    ensures |c.dateArgs| != 2 ==> r == None
    ensures |c.extra| + (if c.days.Some? then 1 else 0) > 1 ==> r == None
    ensures r.Some? <==> CallDate(year, c).Some? && ObservedBinds(c)
    ensures r.Some? ==> r.value.date == CallDate(year, c).value && r.value.name == c.name && r.value.shift.Some?
    ensures r.Some? ==> Valid(r.value.date) && r.value.date.year == year
    ensures r.Some? && c.extra == [] && c.days.None? ==> r.value.shift == Some(1)
  {
    match CallDate(year, c)
    case None => None
    case Some(dt) =>
      if !ObservedBinds(c) then None
      else Some(Rule(dt, c.name, Some(if c.days.Some? then c.days.value else if c.extra != [] then c.extra[0] else 1)))
  }

  /**
   * What a call that raises leaves in the dictionary: nothing when the adding
   * helper raised, its own entry when only `_add_observed` did.
   */
  function Stored(year: int, c: Call): (hs: seq<Holiday>)
    requires CallRule(year, c).None?
    ensures |hs| <= 1
    ensures hs == [] <==> |c.dateArgs| != 2 || !Valid(Date(year, c.dateArgs[0], c.dateArgs[1]))
    ensures hs != [] ==> hs[0] == Holiday(Date(year, c.dateArgs[0], c.dateArgs[1]), c.name) && !ObservedBinds(c)
  {
    match CallDate(year, c)
    case None => []
    case Some(dt) => [Holiday(dt, c.name)]
  }

  /** The calls of lines 70-82, as written. */
  const CLOSING_CALLS: seq<Call> :=
    [ Call(MARTYRS_DAY, [], [JUN, 3], None),
      Call(HEROES_DAY, [], [JUN, 9], None),
      Call(INDEPENDENCE_DAY, [OCT, 9], [], None),
      Call(CHRISTMAS_DAY, [DEC, 25], [], Some(2)),
      Call(BOXING_DAY, [DEC, 26], [], None) ]

  /** The same calls with the month and day given to `_add_holiday`, as on the sibling lines. */
  const INTENDED_CLOSING_CALLS: seq<Call> :=
    [ Call(MARTYRS_DAY, [JUN, 3], [], None),
      Call(HEROES_DAY, [JUN, 9], [], None),
      Call(INDEPENDENCE_DAY, [OCT, 9], [], None),
      Call(CHRISTMAS_DAY, [DEC, 25], [], Some(2)),
      Call(BOXING_DAY, [DEC, 26], [], None) ]

  /** How one population of a year ends: normally, or with an exception after some entries were added. */
  datatype Outcome = Completed(added: seq<Holiday>) | Raised(added: seq<Holiday>)

  /**
   * Calls made in order: each adds its rule's entries, until one raises; the
   * call that raises keeps what it stored before raising.
   */
  function RunCalls(year: int, calls: seq<Call>, observed: bool): (o: Outcome)
    ensures o.Completed? <==> forall i :: 0 <= i < |calls| ==> CallRule(year, calls[i]).Some?
    ensures calls != [] && CallRule(year, calls[0]).None? ==> o == Raised(Stored(year, calls[0]))
  {
    if calls == [] then Completed([])
    else match CallRule(year, calls[0])
      case None => Raised(Stored(year, calls[0]))
      case Some(r) =>
        var rest := RunCalls(year, calls[1..], observed);
        assert forall i :: 1 <= i < |calls| ==> calls[i] == calls[1..][i - 1];
        rest.(added := Contribution(r, observed) + rest.added)
  }

  /** Calls that each add one rule add what the rules expand to. */
  lemma {:induction false} RunRules(year: int, calls: seq<Call>, rules: seq<Rule>, observed: bool)
    requires ValidRules(rules) && |calls| == |rules|
    requires forall i :: 0 <= i < |calls| ==> CallRule(year, calls[i]) == Some(rules[i])
    ensures RunCalls(year, calls, observed) == Completed(Expand(rules, observed))
  {
    if calls != [] {
      var first, rest, later := rules[0], rules[1..], calls[1..];
      forall i | 0 <= i < |later|
        ensures CallRule(year, later[i]) == Some(rest[i])
      {
        assert later[i] == calls[i + 1] && rest[i] == rules[i + 1];
      }
      assert ValidRules(rest) && Valid(first.date);
      RunRules(year, later, rest, observed);
      assert CallRule(year, calls[0]) == Some(first);
      assert RunCalls(year, calls, observed) == Completed(Contribution(first, observed) + Expand(rest, observed));
      assert [first] + rest == rules;
      ExpandCons(first, rest, observed);
    } else {
      assert rules == [];
    }
  }

  /**
   * Calls of which the first few each add one rule and the next raises add
   * what those rules expand to, then what the raising call stored.
   */
  lemma {:induction false} RunRaised(year: int, calls: seq<Call>, rules: seq<Rule>, observed: bool)
    requires ValidRules(rules) && |rules| < |calls|
    requires forall i :: 0 <= i < |rules| ==> CallRule(year, calls[i]) == Some(rules[i])
    requires CallRule(year, calls[|rules|]).None?
    ensures RunCalls(year, calls, observed) == Raised(Expand(rules, observed) + Stored(year, calls[|rules|]))
  {
    if rules != [] {
      var first, rest, later := rules[0], rules[1..], calls[1..];
      forall i | 0 <= i < |rest|
        ensures CallRule(year, later[i]) == Some(rest[i])
      {
        assert later[i] == calls[i + 1] && rest[i] == rules[i + 1];
      }
      assert ValidRules(rest) && Valid(first.date);
      assert later[|rest|] == calls[|rules|];
      RunRaised(year, later, rest, observed);
      assert CallRule(year, calls[0]) == Some(first);
      var stored := Stored(year, calls[|rules|]);
      assert RunCalls(year, calls, observed) == Raised(Contribution(first, observed) + (Expand(rest, observed) + stored));
      assert [first] + rest == rules;
      ExpandCons(first, rest, observed);
      AppendAssoc(Contribution(first, observed), Expand(rest, observed), stored);
    } else {
      assert Expand(rules, observed) + Stored(year, calls[0]) == Stored(year, calls[0]);
    }
  }

  /** A call with a date whose `_add_observed` is given too many arguments raises after storing its own entry. */
  lemma DatedCallRaises(observed: bool)
    ensures RunCalls(2023, [Call(MARTYRS_DAY, [JUN, 3], [JUN, 3], None)], observed)
         == Raised([Holiday(Date(2023, JUN, 3), MARTYRS_DAY)])
  {
    var c := Call(MARTYRS_DAY, [JUN, 3], [JUN, 3], None);
    assert Valid(Date(2023, JUN, 3));
    assert CallRule(2023, c).None?;
  }

  /** The entries of a rule followed by more rules: the first rule's, then the others'. */
  lemma ExpandCons(first: Rule, rest: seq<Rule>, observed: bool)
    requires Valid(first.date) && ValidRules(rest)
    ensures ValidRules([first] + rest)
    ensures Expand([first] + rest, observed) == Contribution(first, observed) + Expand(rest, observed)
  {
    assert [] + [first] == [first];
    ExpandSnoc([], first, observed);
    ExpandConcat([first], rest, observed);
    assert Expand([first], observed) == [] + Contribution(first, observed) == Contribution(first, observed);
  }

  /** The intended calls of lines 70-82 add exactly the closing rules' entries. */
  lemma IntendedClosingCalls(year: int, observed: bool)
    ensures RunCalls(year, INTENDED_CLOSING_CALLS, observed) == Completed(Expand(ClosingRules(year), observed))
  {
    var calls, rules := INTENDED_CLOSING_CALLS, ClosingRules(year);
    assert CallRule(year, calls[0]) == Some(rules[0]) && CallRule(year, calls[1]) == Some(rules[1]);
    assert CallRule(year, calls[2]) == Some(rules[2]) && CallRule(year, calls[3]) == Some(rules[3]);
    assert CallRule(year, calls[4]) == Some(rules[4]);
    RunRules(year, calls, rules, observed);
  }

  /**
   * One population of a year whose closing block makes the calls `closing`:
   * the rules up to line 68 are added, then the calls are made. It completes
   * exactly when the year is 1962 or earlier or every call binds.
   */
  function PopulateWith(year: int, easter: Date, observed: bool, closing: seq<Call>): (o: Outcome)
    requires Valid(easter)
    ensures o.Completed? <==> year <= LAST_YEAR_WITHOUT_HOLIDAYS || forall i :: 0 <= i < |closing| ==> CallRule(year, closing[i]).Some?
  {
    if year <= LAST_YEAR_WITHOUT_HOLIDAYS then Completed([])
    else
      var run := RunCalls(year, closing, observed);
      run.(added := Expand(OpeningRules(year, easter), observed) + run.added)
  }

  /** With the intended calls, a population completes and adds exactly `YearHolidays`. */
  lemma IntendedPopulate(year: int, easter: Date, observed: bool)
    requires Valid(easter)
    ensures PopulateWith(year, easter, observed, INTENDED_CLOSING_CALLS) == Completed(YearHolidays(year, easter, observed))
  {
    if year > LAST_YEAR_WITHOUT_HOLIDAYS {
      IntendedClosingCalls(year, observed);
      ExpandConcat(OpeningRules(year, easter), ClosingRules(year), observed);
    }
  }

  /**
   * As written, every year after 1962 ends in an exception before Uganda
   * Martyrs' Day is added, while the intended rules add it on 3 June and
   * National Heroes' Day on 9 June.
   */
  lemma MartyrsDayAsWritten(year: int, easter: Date, observed: bool)
    requires Valid(easter) && year > LAST_YEAR_WITHOUT_HOLIDAYS
    ensures PopulateWith(year, easter, observed, CLOSING_CALLS) == Raised(Expand(OpeningRules(year, easter), observed))
    ensures forall h :: h in PopulateWith(year, easter, observed, CLOSING_CALLS).added ==> h.name != MARTYRS_DAY
    ensures Holiday(Date(year, JUN, 3), MARTYRS_DAY) in YearHolidays(year, easter, observed)
    ensures Holiday(Date(year, JUN, 9), HEROES_DAY) in YearHolidays(year, easter, observed)
  {
    CivilHolidays(year, easter, observed);
    var opening := OpeningRules(year, easter);
    assert CallRule(year, CLOSING_CALLS[0]) == None;
    assert Expand(opening, observed) + [] == Expand(opening, observed);
    forall h | h in Expand(opening, observed) ensures h.name != MARTYRS_DAY {
      ExpandOrigin(opening, observed, h);
      var r :| r in opening && (h == Base(r) || (Shifts(r, observed) && h == Substitute(r)));
      assert ObservedName(r.name)[|ObservedName(r.name)| - 1] == ')';
    }
  }
}
