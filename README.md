# Uganda public holidays

A Dafny model of the Uganda holiday rules of python-holidays
(`holidays/countries/uganda.py`): how one year of holidays is added to the
holiday set, how a holiday that falls on a Sunday gets an "(Observed)"
substitute, and the Eid date tables of Uganda's Islamic calendar.

The model has six modules:

- `Wrappers`: the `Option` datatype.
- `Dates`: proleptic Gregorian dates with the day numbering of Python's
  `date.toordinal()` and the weekday of `date.weekday()` (Monday 0, Sunday 6).
  `AddDays` is `dt + timedelta(days=n)`.
- `UgandaRules`: the holidays of a year as data. A `Rule` is a date, a name and
  the day offset of its substitute, if it has one. `Rules(year, easter)` lists
  the rules in force in a year in the order the source adds them.
  `YearHolidays(year, easter, observed)` is the sequence of entries that
  populating the year adds: nothing up to 1962, and otherwise each rule's
  entry followed by its substitute when the rule shifts. All the year-level
  properties are proved about `YearHolidays`.
- `Uganda`: the holiday set as a class. It has the `observed` flag and a
  mutable `entries` sequence. `AddObserved` and `Populate` are methods proved
  to append exactly what the specification functions say. `Populate` works
  through three block methods that follow the source's order. Each nested
  call `_add_observed(_add_…(name, …), days)` is one `AddWithObserved`.
- `UgandaDateKeys`: the holiday set is keyed by date. This module proves that
  the entries one population of a year adds are on pairwise distinct dates.
  So what one population adds loses nothing against a dictionary from dates
  to names. Entries added by populations of different years are not proved
  distinct against each other.
- `UgandaIslamicCalendar`: the Eid al-Adha and Eid al-Fitr override tables as
  `map` constants, with exact-match lookups.

Easter Sunday is a parameter: `Populate(year, easter)` takes the Easter Sunday
of `year`. All the model assumes of it is the Gregorian window it always falls
in: 22 March to 25 April of `year` (`EasterWindow`). `self[dt]` (the name stored on a date) is modelled
as the name of the last entry added on that date.

## Model

| member | source | states |
|---|---|---|
| Dates.AddDays | holidays/countries/uganda.py:42 | `dt + timedelta(days=n)` is a valid date whose ordinal is exactly `n` more than `dt`'s |
| Dates.AddDaysInverse | holidays/countries/uganda.py:42 | moving `n` days and then `-n` days returns the original date |
| Dates.DayNumberInjective | holidays/countries/uganda.py:42 | two valid dates with the same ordinal are the same date, so a date is determined by its day offset |
| Dates.WeekdayAfter | holidays/countries/uganda.py:41-42 | moving `n` days moves the weekday by `n` modulo 7 |
| Dates.Weekday | holidays/countries/uganda.py:41 | `date.weekday()` is one of 0 (Monday) to 6 (Sunday) |
| Dates.IsSunday | holidays/countries/uganda.py:41 | a date is a Sunday exactly when its ordinal is a multiple of 7 |
| Dates.SundayShift | holidays/countries/uganda.py:40-42 | one day after a Sunday is a Monday and two days after is a Tuesday |
| Uganda.LastNameAtSpec | holidays/countries/uganda.py:42 | the name looked up at `dt` is absent exactly when no entry is on `dt`; otherwise it is the name of an entry on `dt` with no later entry on `dt` |
| Uganda.ObservedEntry | holidays/countries/uganda.py:40-42 | the observed rule adds at most one entry; it adds one exactly when `observed` is on and `dt` is a Sunday; that entry is `days` days after `dt` |
| Uganda.Uganda.AddObserved | holidays/countries/uganda.py:40-42 | appends "<name at dt> (Observed)" on `dt + days` when `observed` is on and `dt` is a Sunday, and otherwise leaves the entries unchanged (Saturdays included) |
| Uganda.Uganda.AddHoliday | holidays/countries/uganda.py:64 | appends one entry and returns its date |
| Uganda.Uganda.AddWithObserved | holidays/countries/uganda.py:64 | a holiday added and then passed to the observed rule grows the entries by its own entry, then its substitute exactly when it shifts |
| Uganda.Uganda.Populate | holidays/countries/uganda.py:44-82 | populating a year appends exactly `YearHolidays(year, easter, observed)` to the entries, and the entries it adds are on pairwise distinct dates |
| Uganda.Uganda.constructor | holidays/countries/uganda.py:34-38 | a new holiday set has the `observed` flag it is given and no entries |
| Uganda.LastNameAt | holidays/countries/uganda.py:42 | a name found at `dt` is the name of an entry on `dt` |
| Uganda.Uganda.AddCivil | holidays/countries/uganda.py:50-60 | appends New Year's Day, Good Friday, Easter Monday and Labour Day with their substitutes, in that order |
| Uganda.Uganda.AddGated | holidays/countries/uganda.py:62-68 | appends Liberation Day only from 1986 and Archbishop Janani Luwum Day only from 2015, each with its substitute |
| Uganda.Uganda.AddClosing | holidays/countries/uganda.py:70-82 | appends Uganda Martyrs' Day to Boxing Day with their substitutes, in source order |
| UgandaRules.ObservedName | holidays/countries/uganda.py:42 | a substitute name is the name plus " (Observed)", so it ends in ')' |
| UgandaRules.ObservedNameInjective | holidays/countries/uganda.py:42 | different names give different substitute names |
| UgandaRules.Contribution | holidays/countries/uganda.py:40-42 | one rule adds its own entry first, and a second entry exactly when the rule is shiftable, `observed` is on and its date is a Sunday; that entry is the rule's substitute |
| UgandaRules.Expand | holidays/countries/uganda.py:40-82 | a run of rules adds at least as many entries as there are rules and at most twice as many; with `observed` off, exactly one entry per rule |
| UgandaRules.YearHolidays | holidays/countries/uganda.py:44-82 | a year has no entries exactly when it is 1962 or earlier, so 1963 is the first year with holidays |
| UgandaRules.Substitute | holidays/countries/uganda.py:42 | a substitute is a valid date exactly the rule's shift after the rule's date |
| UgandaRules.Rules | holidays/countries/uganda.py:50-82 | the rules of a year are all on valid dates |
| UgandaRules.CivilRules | holidays/countries/uganda.py:50-60 | New Year's Day, Good Friday, Easter Monday and Labour Day are on valid dates for every valid Easter Sunday |
| UgandaRules.LiberationRules | holidays/countries/uganda.py:62-64 | the Liberation Day rule, when in force, is on a valid date |
| UgandaRules.LuwumRules | holidays/countries/uganda.py:66-68 | the Archbishop Janani Luwum Day rule, when in force, is on a valid date |
| UgandaRules.ClosingRules | holidays/countries/uganda.py:70-82 | the rules from Uganda Martyrs' Day to Boxing Day are on valid dates |
| UgandaRules.OpeningRules | holidays/countries/uganda.py:50-68 | the rules before line 70 are on valid dates and none of them is Uganda Martyrs' Day |
| UgandaRules.ExpandHasBase | holidays/countries/uganda.py:44-82 | every rule's own entry is added |
| UgandaRules.ExpandHasSubstitute | holidays/countries/uganda.py:40-42 | the substitute of every rule that shifts is added |
| UgandaRules.ExpandOrigin | holidays/countries/uganda.py:40-82 | nothing else is added: every entry is a rule's own entry or the substitute of a rule that shifts |
| UgandaRules.ExpandCons | holidays/countries/uganda.py:44-82 | a rule followed by more rules adds the first rule's entries, then the others' |
| UgandaRules.ExpandConcat | holidays/countries/uganda.py:44-82 | adding two runs of rules one after the other adds the entries of the first run, then those of the second |
| UgandaRules.YearHolidaysSplit | holidays/countries/uganda.py:44-82 | a year after 1962 adds the entries of the rules up to line 68, then those of lines 70-82 |
| UgandaRules.CivilInOrder | holidays/countries/uganda.py:50-60 | the first four rules add New Year's Day and its substitute, Good Friday two days before Easter, Easter Monday the day after, and Labour Day and its substitute, in that order |
| UgandaRules.GatedInOrder | holidays/countries/uganda.py:62-68 | each gated rule adds its entries only from its first year on |
| UgandaRules.OpeningSplit | holidays/countries/uganda.py:50-68 | the opening rules add the civil entries, then Liberation Day's, then Archbishop Janani Luwum Day's |
| UgandaRules.ClosingInOrder | holidays/countries/uganda.py:70-82 | the closing rules add Uganda Martyrs' Day, National Heroes' Day, Independence Day, Christmas Day and Boxing Day, each followed by its substitute when it shifts |
| UgandaRules.RuleNamesDistinctByYear | holidays/countries/uganda.py:50-82 | the rule names of every year are pairwise distinct |
| UgandaRules.RulesNamed | holidays/countries/uganda.py:50-82 | the names of a year's rules are its list of holiday names, in order |
| UgandaRules.RuleNamesPlain | holidays/countries/uganda.py:50-82 | no rule name ends in ')', so no rule name looks like a substitute name |
| UgandaRules.RuleNameUnique | holidays/countries/uganda.py:50-82 | two rules of the same year with the same name are the same rule |
| UgandaRules.SubstituteIff | holidays/countries/uganda.py:40-42 | a shiftable rule's substitute is in the year exactly when `observed` is on and the rule's date is a Sunday |
| UgandaRules.ExpandNames | holidays/countries/uganda.py:42 | every entry is named after a rule, either plainly or with " (Observed)" |
| UgandaRules.EntryNames | holidays/countries/uganda.py:42 | every entry of a year has the name of one of that year's rules, plainly or with " (Observed)" |
| UgandaRules.NamedEntry | holidays/countries/uganda.py:44-82 | a plain name (one not ending in ')') is in a year exactly when the year is after 1962 and has a rule of that name |
| UgandaRules.GatedNames | holidays/countries/uganda.py:62-68 | Liberation Day is a rule name of a year exactly from 1986, and Archbishop Janani Luwum Day exactly from 2015 |
| UgandaRules.GatedRules | holidays/countries/uganda.py:62-68 | from their first year, the two gated rules are among the year's rules with their dates and one-day shift |
| UgandaRules.LiberationDayGate | holidays/countries/uganda.py:62-64 | Liberation Day is in a year if and only if the year is 1986 or later, and then it is on 26 January |
| UgandaRules.JananiLuwumDayGate | holidays/countries/uganda.py:66-68 | Archbishop Janani Luwum Day is in a year if and only if the year is 2015 or later, and then it is on 16 February |
| UgandaRules.GateExamples | holidays/countries/uganda.py:62-68 | Liberation Day is absent in 1985 and present in 1986 and 1990; Archbishop Janani Luwum Day is absent in 2014 and present in 2015 |
| UgandaRules.CivilHolidays | holidays/countries/uganda.py:50-82 | every year after 1962 has 1 January, 1 May, 3 June, 9 June, 9 October, 25 and 26 December under their names |
| UgandaRules.EasterHolidays | holidays/countries/uganda.py:53-57 | every year after 1962 has Good Friday two days before Easter Sunday and Easter Monday the day after, and neither ever has an observed entry |
| UgandaRules.NotSubstituted | holidays/countries/uganda.py:53-57 | no entry carries the substitute name of a rule that does not shift |
| UgandaRules.ShiftDays | holidays/countries/uganda.py:50-82 | exactly Good Friday and Easter Monday are never shifted; Christmas Day shifts by two days and every other rule by one |
| UgandaRules.SubstituteWeekday | holidays/countries/uganda.py:40-42 | a substitute lands on a Monday (a Tuesday for Christmas Day), never on a Sunday, so one shift is enough |
| UgandaRules.NoSubstitutesUnobserved | holidays/countries/uganda.py:41 | with `observed` off a year has exactly one entry per rule and every entry is a rule's own entry |
| UgandaRules.ChristmasSubstitute | holidays/countries/uganda.py:79 | "Christmas Day (Observed)" is on 27 December exactly when `observed` is on and 25 December is a Sunday |
| UgandaRules.NewYearSubstitute | holidays/countries/uganda.py:51 | "New Year's Day (Observed)" is on 2 January exactly when `observed` is on and 1 January is a Sunday |
| UgandaRules.BoxingDaySubstitute | holidays/countries/uganda.py:82 | "Boxing Day (Observed)" is on 27 December exactly when `observed` is on and 26 December is a Sunday |
| UgandaRules.NewYear2023 | holidays/countries/uganda.py:51 | 1 January 2023 is a Sunday, so 2023 has New Year's Day and its substitute on 2 January; with `observed` off it has no substitute |
| UgandaRules.Year2022 | holidays/countries/uganda.py:79-82 | 1 January 2022 (a Saturday) gets no substitute; Christmas Day 2022 (a Sunday) gets one on 27 December; Boxing Day 2022 (a Monday) gets none |
| UgandaRules.CallDate | holidays/countries/uganda.py:70-82 | the adding helper stores a date exactly when it is given a month and a day that make a valid date of the year, and stores that date |
| UgandaRules.CallRule | holidays/countries/uganda.py:70-82 | a call binds exactly when the adding helper stores a date and `_add_observed` gets at most one argument after it; a call that binds adds a shiftable rule of its name on that date, shifted one day by default |
| UgandaRules.Stored | holidays/countries/uganda.py:70-82 | a call that raises leaves nothing when it has no valid month and day, and otherwise its own entry on its date, because `_add_observed` failed to bind after the adding helper stored it |
| UgandaRules.RunCalls | holidays/countries/uganda.py:70-82 | a run of calls completes exactly when every call binds; when the first call raises, the run ends with what that call stored |
| UgandaRules.RunRules | holidays/countries/uganda.py:70-82 | calls that each bind to one rule add exactly what those rules expand to |
| UgandaRules.RunRaised | holidays/countries/uganda.py:70-82 | calls of which the first few bind to rules and the next raises add what those rules expand to, then what the raising call stored, and end raised |
| UgandaRules.DatedCallRaises | holidays/countries/uganda.py:70-74 | a call with 3 June as its date and two more arguments to `_add_observed` raises with Uganda Martyrs' Day already stored on 3 June |
| UgandaRules.IntendedClosingCalls | holidays/countries/uganda.py:70-82 | the calls of lines 70-82, with the month and day given to `_add_holiday`, add exactly the closing rules' entries |
| UgandaRules.PopulateWith | holidays/countries/uganda.py:44-82 | a population completes exactly when the year is 1962 or earlier or every closing call binds |
| UgandaRules.IntendedPopulate | holidays/countries/uganda.py:44-82 | with the intended calls, a population completes and adds exactly `YearHolidays` |
| UgandaRules.MartyrsDayAsWritten | holidays/countries/uganda.py:70-74 | as written, every year after 1962 raises at line 71, having added only the entries up to line 68 and no Uganda Martyrs' Day; the intended rules add it on 3 June and National Heroes' Day on 9 June |
| UgandaDateKeys.EasterRange | holidays/countries/uganda.py:53-57 | an Easter Sunday in its window is a valid date between the ordinals of 22 March and 25 April |
| UgandaDateKeys.ContributionKeys | holidays/countries/uganda.py:40-42 | a rule with a forward shift adds entries on distinct dates, from its own date to its substitute's date |
| UgandaDateKeys.EasterKeys | holidays/countries/uganda.py:53-57 | Good Friday and Easter Monday are on distinct dates between 20 March and 26 April |
| UgandaDateKeys.CivilKeys | holidays/countries/uganda.py:50-60 | the civil and Easter entries are on distinct dates between 1 January and 2 May, none of them between 3 January and 19 March |
| UgandaDateKeys.GatedKeys | holidays/countries/uganda.py:62-68 | the Liberation Day and Archbishop Janani Luwum Day entries are on distinct dates between 26 January and 17 February |
| UgandaDateKeys.OpeningKeys | holidays/countries/uganda.py:50-68 | the entries up to line 68 are on distinct dates between 1 January and 2 May |
| UgandaDateKeys.NotTwoSundays | holidays/countries/uganda.py:78-82 | two consecutive days are never both Sundays |
| UgandaDateKeys.ChristmasSundays | holidays/countries/uganda.py:78-82 | 25 and 26 December are consecutive, so at most one of them is a Sunday |
| UgandaDateKeys.ChristmasKeys | holidays/countries/uganda.py:78-82 | Christmas Day, Boxing Day and the one possible substitute on 27 December are on distinct dates |
| UgandaDateKeys.ClosingKeys | holidays/countries/uganda.py:70-82 | the entries from line 70 on are on distinct dates between 3 June and 27 December |
| UgandaDateKeys.YearKeys | holidays/countries/uganda.py:44-82 | with Easter Sunday in its window, no two entries of a year are on the same date |
| UgandaDateKeys.OneHolidayPerDate | holidays/countries/uganda.py:44-82 | two entries of a year on the same date are the same entry, so the date-keyed set never has to join two names |
| UgandaDateKeys.FixedDateHolidays | holidays/countries/uganda.py:50-82 | the one entry on each fixed date of a year after 1962 is that date's holiday: New Year's Day on 1 January, Labour Day on 1 May, and so on to Boxing Day |
| UgandaIslamicCalendar.Lookup | holidays/countries/uganda.py:93-106 | a table lookup finds a value exactly when the year is a key, and then it finds that key's value |
| UgandaIslamicCalendar.EidAlAdha | holidays/countries/uganda.py:94-99 | Eid al-Adha is tabled exactly for 2017 to 2020, and each tabled date is a valid date of its year |
| UgandaIslamicCalendar.EidAlFitr | holidays/countries/uganda.py:101-106 | Eid al-Fitr is tabled exactly for 2017 to 2020, and each tabled date is a valid date of its year |
| UgandaIslamicCalendar.EidExamples | holidays/countries/uganda.py:94-106 | each tabled year returns its (month, day), e.g. Eid al-Adha 2018 is (8, 21) and Eid al-Fitr 2019 is (6, 3); 2016 and 2021 return nothing |
| UgandaIslamicCalendar.FitrToAdha | holidays/countries/uganda.py:94-106 | in every tabled year Eid al-Adha is 67 to 69 days after Eid al-Fitr: two lunar months and nine days |

## Left out

- Easter Sunday is not computed. `_add_good_friday` and `_add_easter_monday` take it from the Christian holiday mixin, which is not part of this model, so `Populate` takes it as a parameter.
- The arithmetic Islamic-to-Gregorian fallback for years missing from the Eid tables, and the "(estimated)" name marker. Both belong to the custom Islamic calendar base class, which is not part of this model. The class is wired to this calendar (line 37), but `_populate` adds no Eid holiday, so nothing in a populated year uses the tables.
- Holiday-set machinery from the base class, which is not part of this model: lazy per-year population, idempotence when a year is requested again, `super()._populate(year)` (line 48; it adds nothing because `special_holidays` is empty), and joining the names of several holidays on one date. The holiday set is modelled as an append-only sequence of entries, and `self[dt]` as the name of the last entry on `dt`.
- Uganda.Uganda.AddObserved: requires an entry on `dt` whenever a substitute is added. Without one, the source's `self[dt]` lookup fails. Every call in `_populate` passes the date it has just added.
- Uganda.Uganda.Populate: years are unbounded integers. Python dates only allow years 1 to 9999, and a date past 9999 raises.
- The mixin `__init__` wiring (lines 34-38), the `UG` and `UGN` aliases (lines 85-90), and the localization of names.
- The literal broken call shape at lines 71 and 74 is not part of `Populate`. `Populate` models the evident intent. The calls of lines 70-82 as written are modelled separately, as `Call` values run by `RunCalls`, and reported under Findings.
- `CallRule` takes the Christmas helpers of lines 79 and 82 as adding 25 and 26 December. Those helpers belong to the holiday mixin, which is not part of this model.

## Findings

| source | as written | input that shows it | evidently intended | confidence | as-written member | corrected member |
|---|---|---|---|---|---|---|
| holidays/countries/uganda.py:71-74 | `_add_holiday` is called with a name and no month or day, and the month and day are passed to `_add_observed(self, dt, days=+1)` as two extra positional arguments. The holiday has no date, so the call raises; with a date it would still raise, because `_add_observed` takes at most one argument after the date, though only after storing the entry. | any year after 1962, e.g. 2023 | Uganda Martyrs' Day on 3 June and National Heroes' Day on 9 June, each with the default one-day substitute | high, not executed | UgandaRules.MartyrsDayAsWritten | UgandaRules.IntendedPopulate |
