/** When a schedule fires next: a minute-by-minute search over the 1440 minutes after now. */
module CronSchedule {
  import opened Text
  import opened Decimal
  import opened CronField

  /** The calendar readings of a day, given by its number since the epoch. */
  datatype Calendar = Calendar(day: int -> nat, month: int -> nat, weekday: int -> nat)

  ghost predicate ValidCalendar(cal: Calendar) {
    forall d: int :: 1 <= cal.day(d) <= 31 && 1 <= cal.month(d) <= 12 && cal.weekday(d) <= 6
  }

  // Time is a count of whole UTC seconds.

  function Minute(t: int): nat { t / 60 % 60 }

  function Hour(t: int): nat { t / 3600 % 24 }

  function Day(t: int): int { t / 86400 }

  /** The whole minutes of the search window: those after `now`, up to a day later. */
  predicate InWindow(now: int, t: int) {
    now < t <= now + 86400 && t % 60 == 0
  }

  predicate SameMinute(t: int, last: int) {
    Day(t) == Day(last) && Hour(t) == Hour(last) && Minute(t) == Minute(last)
  }

  const FIELD_MAX: seq<nat> := [59, 23, 31, 12, 7]

  /** All five fields hold their reading: minute, hour, day of the month, month and weekday. */
  predicate Matches(fields: seq<seq<nat>>, cal: Calendar, t: int)
    requires |fields| == 5
  {
    && t / 60 % 60 in fields[0] && t / 3600 % 24 in fields[1]
    && cal.day(t / 86400) in fields[2] && cal.month(t / 86400) in fields[3] && cal.weekday(t / 86400) in fields[4]
  }

  predicate Eligible(fields: seq<seq<nat>>, cal: Calendar, last: Option<int>, t: int)
    requires |fields| == 5
  {
    Matches(fields, cal, t) && !(last.Some? && SameMinute(t, last.value))
  }

  /** The outcome of a search: a delay in seconds, no fire in the window (or a schedule that does
      not parse), or a field whose expansion leaves 32 bits. */
  datatype Fire = In(secs: int) | Never | Broken

  /** The five fields of a schedule, each expanded within its own bound; any other count has none. */
  ghost function ExpandFields(words: seq<string>): (es: seq<Expansion>)
    ensures |words| != 5 ==> es == []
    ensures |words| == 5 ==> |es| == 5 && forall i :: 0 <= i < 5 ==> es[i] == ExpandField(words[i], FIELD_MAX[i])
  {
    if |words| != 5 then [] else seq(5, i requires 0 <= i < 5 => ExpandField(words[i], FIELD_MAX[i]))
  }

  predicate Overflowing(es: seq<Expansion>) {
    |es| == 5 && exists i :: 0 <= i < 5 && es[i].Overflow?
  }

  /** Five fields, each with at least one value. */
  predicate Usable(es: seq<Expansion>) {
    |es| == 5 && forall i :: 0 <= i < 5 ==> es[i].Values? && es[i].vals != []
  }

  function Fields(es: seq<Expansion>): (fs: seq<seq<nat>>)
    requires Usable(es)
    ensures |fs| == 5 && forall i :: 0 <= i < 5 ==> fs[i] == es[i].vals
  {
    [es[0].vals, es[1].vals, es[2].vals, es[3].vals, es[4].vals]
  }

  /** The search starts at the next whole minute. */
  function Start(now: int): (t: int)
    ensures now < t <= now + 60
  {
    now + 60 - (now + 60) % 60
  }

  /** The `i`-th candidate. */
  function Candidate(now: int, i: int): int {
    Start(now) + 60 * i
  }

  /** The first eligible time among `t`, `t + 60` and so on, no later than a day after `now`. */
  function Scan(eligible: int -> bool, now: int, t: int): Fire
    decreases now + 86400 - t
  {
    if t > now + 86400 then Never
    else if eligible(t) then In(t - now)
    else Scan(eligible, now, t + 60)
  }

  function Eligibility(fields: seq<seq<nat>>, cal: Calendar, last: Option<int>): int -> bool
    requires |fields| == 5
  {
    t => Eligible(fields, cal, last, t)
  }

  /** The next fire of a schedule with these expanded fields. */
  function NextFire(es: seq<Expansion>, last: Option<int>, now: int, cal: Calendar): Fire {
    if Overflowing(es) then Broken
    else if Usable(es) then Scan(Eligibility(Fields(es), cal, last), now, Start(now))
    else Never
  }

  ghost function NextFireOf(expr: string, last: Option<int>, now: int, cal: Calendar): Fire {
    NextFire(ExpandFields(Words(expr)), last, now, cal)
  }

  lemma OverflowingAt(words: seq<string>, i: nat)
    requires |words| == 5 && i < 5 && ExpandField(words[i], FIELD_MAX[i]).Overflow?
    ensures Overflowing(ExpandFields(words))
  {
    assert ExpandFields(words)[i].Overflow?;
  }

  /** The five fields expanded, each within its own bound; none when an expansion breaks. */
  method BuildMatchers(words: seq<string>) returns (r: Option<seq<Expansion>>)
    requires |words| == 5
    ensures r.None? <==> Overflowing(ExpandFields(words))
    ensures r.Some? ==> r.value == ExpandFields(words)
  {
    var es: seq<Expansion> := [];
    for i := 0 to 5
      invariant |es| == i
      invariant forall j :: 0 <= j < i ==> es[j].Values? && es[j] == ExpandField(words[j], FIELD_MAX[j])
    {
      var e := ExpandCronField(words[i], FIELD_MAX[i]);
      if e.Overflow? {
        OverflowingAt(words, i);
        return None;
      }
      es := es + [e];
    }
    assert es == ExpandFields(words);
    return Some(es);
  }

  /** Compare the five readings of a candidate with the five lists, in the same order. */
  method MatchCandidate(matchers: seq<seq<nat>>, cal: Calendar, t: int) returns (matches: bool)
    requires |matchers| == 5
    ensures matches == Matches(matchers, cal, t)
  {
    var vals := [Minute(t), Hour(t), cal.day(Day(t)), cal.month(Day(t)), cal.weekday(Day(t))];
    matches := forall i :: 0 <= i < 5 ==> vals[i] in matchers[i];
  }

  /** The search itself: the first of 1440 minutes that matches and is not the last run's. */
  method ScanMinutes(matchers: seq<seq<nat>>, cal: Calendar, last: Option<int>, now: int) returns (r: Fire)
    requires |matchers| == 5
    ensures r == Scan(Eligibility(matchers, cal, last), now, Start(now))
  {
    ghost var eligible := Eligibility(matchers, cal, last);
    var start := Start(now);
    for i := 0 to 1440
      invariant Scan(eligible, now, start + 60 * i) == Scan(eligible, now, start)
    {
      var candidate := start + 60 * i;
      var matches := MatchCandidate(matchers, cal, candidate);
      if !matches {
        continue;
      }
      if last.Some? && SameMinute(candidate, last.value) {
        continue;
      }
      var delta := candidate - now;
      return In(if delta > 0 then delta else 0);
    }
    return Never;
  }

  /** Seconds until the schedule fires next. */
  method CronExpressionNextSecs(expr: string, last: Option<int>, now: int, cal: Calendar) returns (r: Fire)
    ensures r == NextFireOf(expr, last, now, cal)
  {
    var words := Words(expr);
    if |words| != 5 {
      return Never;
    }
    var matchers := BuildMatchers(words);
    if matchers.None? {
      return Broken;
    }
    var es := matchers.value;
    if exists i :: 0 <= i < 5 && es[i].vals == [] {
      return Never;
    }
    r := ScanMinutes(Fields(es), cal, last, now);
  }

  // ---- the window ---------------------------------------------------------

  lemma MinuteReadings(k: int)
    ensures Minute(60 * k) == k % 60 && Hour(60 * k) == k / 60 % 24 && Day(60 * k) == k / 1440
  {
    assert 60 * k / 60 == k;
    assert 60 * k / 3600 == k / 60;
    assert 60 * k / 86400 == k / 1440;
  }

  /** The candidates are the window's whole minutes, in order. */
  lemma CandidateInWindow(now: int, i: int)
    requires 0 <= i < 1440
    ensures InWindow(now, Candidate(now, i)) && Candidate(now, i) == 60 * (now / 60 + 1 + i)
  {
    assert now == 60 * (now / 60) + now % 60;
    assert (now + 60) % 60 == now % 60;
  }

  lemma WindowIsCandidate(now: int, t: int)
    requires InWindow(now, t)
    ensures 0 <= t / 60 - now / 60 - 1 < 1440 && t == Candidate(now, t / 60 - now / 60 - 1)
  {
    assert now == 60 * (now / 60) + now % 60;
    assert (now + 60) % 60 == now % 60;
    assert t == 60 * (t / 60);
  }

  /** On whole minutes, comparing day, hour and minute compares the minute number. */
  lemma SameMinuteMeaning(t: int, last: int)
    ensures SameMinute(t, last) <==> t / 60 == last / 60
  {
    var a, b := t / 60, last / 60;
    assert t / 3600 == a / 60 && last / 3600 == b / 60;
    assert t / 86400 == a / 1440 && last / 86400 == b / 1440;
    assert a == a / 1440 * 1440 + a / 60 % 24 * 60 + a % 60;
    assert b == b / 1440 * 1440 + b / 60 % 24 * 60 + b % 60;
  }

  lemma MinuteOfDay(k: int)
    ensures k % 1440 == 60 * Hour(60 * k) + Minute(60 * k)
  {
    MinuteReadings(k);
    var h := k / 60;
    assert k == 60 * h + k % 60 && h == 24 * (h / 24) + h % 24;
    assert h / 24 == k / 1440;
  }

  lemma DaySpan(a: int, b: int)
    requires a % 1440 == b % 1440 && -1440 < a - b < 1440
    ensures a == b
  {
  }

  /** A day of consecutive minutes passes through every hour and minute exactly once. */
  lemma WindowVisits(now: int, h: nat, m: nat) returns (t: int)
    requires h < 24 && m < 60
    ensures InWindow(now, t) && Hour(t) == h && Minute(t) == m
    ensures forall u :: InWindow(now, u) && Hour(u) == h && Minute(u) == m ==> u == t
  {
    var first := now / 60 + 1;
    var i := (60 * h + m - first) % 1440;
    var k := first + i;
    assert k % 1440 == 60 * h + m;
    t := 60 * k;
    CandidateInWindow(now, i);
    MinuteOfDay(k);
    forall u | InWindow(now, u) && Hour(u) == h && Minute(u) == m ensures u == t {
      WindowIsCandidate(now, u);
      MinuteOfDay(u / 60);
      DaySpan(u / 60, k);
    }
  }

  // ---- what a search returns ----------------------------------------------

  /** From a whole minute on, the search finds the first eligible whole minute of the window. */
  lemma {:induction false} ScanEarliest(eligible: int -> bool, now: int, t: int)
    requires t % 60 == 0
    ensures match Scan(eligible, now, t) {
              case Never => forall u :: t <= u <= now + 86400 && u % 60 == 0 ==> !eligible(u)
              case In(s) =>
                && t <= now + s <= now + 86400 && (now + s) % 60 == 0 && eligible(now + s)
                && forall u :: t <= u < now + s && u % 60 == 0 ==> !eligible(u)
              case Broken => false
            }
    decreases now + 86400 - t
  {
    if t <= now + 86400 && !eligible(t) {
      ScanEarliest(eligible, now, t + 60);
      assert forall u :: t < u < t + 60 ==> u % 60 != 0;
    }
  }

  lemma StartIsWhole(now: int)
    ensures Start(now) % 60 == 0
  {
    assert now + 60 == 60 * ((now + 60) / 60) + (now + 60) % 60;
  }

  /** The first eligible minute of the window, or none. */
  ghost predicate IsEarliest(eligible: int -> bool, now: int, r: Fire) {
    match r
    case Never => forall t :: InWindow(now, t) ==> !eligible(t)
    case In(s) =>
      && 1 <= s <= 86400 && InWindow(now, now + s) && eligible(now + s)
      && forall t :: InWindow(now, t) && t < now + s ==> !eligible(t)
    case Broken => false
  }

  lemma ScanIsEarliest(eligible: int -> bool, now: int)
    ensures IsEarliest(eligible, now, Scan(eligible, now, Start(now)))
  {
    StartIsWhole(now);
    ScanEarliest(eligible, now, Start(now));
    forall t | InWindow(now, t) ensures Start(now) <= t {
      WindowIsCandidate(now, t);
    }
  }

  /** A search returns the delay to the earliest whole minute, after now and within a day, that
      matches all five fields and is not the minute of the last run; it returns nothing exactly
      when there is no such minute. */
  lemma NextFireIsEarliest(es: seq<Expansion>, last: Option<int>, now: int, cal: Calendar)
    requires Usable(es)
    ensures IsEarliest(Eligibility(Fields(es), cal, last), now, NextFire(es, last, now, cal))
  {
    ScanIsEarliest(Eligibility(Fields(es), cal, last), now);
  }

  /** The minute, hour, day, month and weekday of `t` are each meant by a clause of their own field,
      and `t` is not in the minute of the last run. */
  ghost predicate MeantAt(fields: seq<seq<Clause>>, cal: Calendar, last: Option<int>, t: int)
    requires |fields| == 5
  {
    && SomeMeans(fields[0], 59, t / 60 % 60)
    && SomeMeans(fields[1], 23, t / 3600 % 24)
    && SomeMeans(fields[2], 31, cal.day(t / 86400))
    && SomeMeans(fields[3], 12, cal.month(t / 86400))
    && SomeMeans(fields[4], 7, cal.weekday(t / 86400))
    && !(last.Some? && t / 60 == last.value / 60)
  }

  /** Some clause of some field means a value too large to be stepped from. */
  ghost predicate SomeClauseOverflows(fields: seq<seq<Clause>>)
    requires |fields| == 5 && forall i, j :: 0 <= i < 5 && 0 <= j < |fields[i]| ==> fields[i][j].Valid()
  {
    exists i :: 0 <= i < 5 && exists j :: 0 <= j < |fields[i]| && fields[i][j].Overflows(FIELD_MAX[i])
  }

  /** The words of a written schedule. */
  function ScheduleWords(fields: seq<seq<Clause>>): (words: seq<string>)
    ensures |words| == |fields| && forall i :: 0 <= i < |words| ==> words[i] == FieldText(fields[i])
  {
    seq(|fields|, i requires 0 <= i < |fields| => FieldText(fields[i]))
  }

  lemma {:induction false} FieldTextIsWord(ts: seq<string>)
    requires ts != [] && forall i :: 0 <= i < |ts| ==> IsWord(ts[i])
    ensures IsWord(Join(ts, ","))
    decreases |ts|
  {
    if |ts| > 1 {
      FieldTextIsWord(ts[1..]);
    }
  }

  lemma FieldIsWord(cs: seq<Clause>)
    requires cs != [] && forall j :: 0 <= j < |cs| ==> cs[j].Valid()
    ensures IsWord(FieldText(cs))
  {
    forall j | 0 <= j < |cs| ensures IsWord(Texts(cs)[j]) {
      ClauseIsWord(cs[j]);
    }
    FieldTextIsWord(Texts(cs));
  }

  lemma ScheduleTextWords(fields: seq<seq<Clause>>)
    requires forall i :: 0 <= i < |fields| ==> fields[i] != []
    requires forall i, j :: 0 <= i < |fields| && 0 <= j < |fields[i]| ==> fields[i][j].Valid()
    ensures Words(Join(ScheduleWords(fields), " ")) == ScheduleWords(fields)
  {
    forall i | 0 <= i < |fields| ensures IsWord(ScheduleWords(fields)[i]) {
      FieldIsWord(fields[i]);
    }
    WordsJoin(ScheduleWords(fields));
  }

  /** Expanded fields that hold exactly the values meant. */
  ghost predicate Denote(es: seq<Expansion>, fields: seq<seq<Clause>>)
    requires |fields| == 5
  {
    && |es| == 5
    && forall i :: 0 <= i < 5 ==>
         es[i].Values? && forall v: nat :: v in es[i].vals <==> SomeMeans(fields[i], FIELD_MAX[i], v)
  }

  lemma ScheduleDenotes(fields: seq<seq<Clause>>)
    requires |fields| == 5 && forall i :: 0 <= i < 5 ==> fields[i] != []
    requires forall i, j :: 0 <= i < 5 && 0 <= j < |fields[i]| ==> fields[i][j].Valid()
    ensures Overflowing(ExpandFields(ScheduleWords(fields))) <==> SomeClauseOverflows(fields)
    ensures !SomeClauseOverflows(fields) ==> Denote(ExpandFields(ScheduleWords(fields)), fields)
  {
    var es := ExpandFields(ScheduleWords(fields));
    forall i | 0 <= i < 5
      ensures es[i].Overflow? <==> exists j :: 0 <= j < |fields[i]| && fields[i][j].Overflows(FIELD_MAX[i])
      ensures es[i].Values? ==> forall v: nat :: v in es[i].vals <==> SomeMeans(fields[i], FIELD_MAX[i], v)
    {
      FieldRoundTrip(fields[i], FIELD_MAX[i], 0);
      forall v: nat | es[i].Values? ensures v in es[i].vals <==> SomeMeans(fields[i], FIELD_MAX[i], v) {
        FieldRoundTrip(fields[i], FIELD_MAX[i], v);
      }
    }
  }

  lemma MeantIsEligible(es: seq<Expansion>, fields: seq<seq<Clause>>, cal: Calendar, last: Option<int>, t: int)
    requires |fields| == 5 && Denote(es, fields)
    ensures MeantAt(fields, cal, last, t) <==> Usable(es) && Eligible(Fields(es), cal, last, t)
  {
    if last.Some? {
      SameMinuteMeaning(t, last.value);
    }
    assert MeantAt(fields, cal, last, t) ==> t / 60 % 60 in es[0].vals && t / 3600 % 24 in es[1].vals;
    assert MeantAt(fields, cal, last, t) ==>
        cal.day(t / 86400) in es[2].vals && cal.month(t / 86400) in es[3].vals && cal.weekday(t / 86400) in es[4].vals;
  }

  ghost function Meant(fields: seq<seq<Clause>>, cal: Calendar, last: Option<int>): int -> bool
    requires |fields| == 5
  {
    t => MeantAt(fields, cal, last, t)
  }

  lemma SameEarliest(a: int -> bool, b: int -> bool, now: int, r: Fire)
    requires forall t :: a(t) <==> b(t)
    ensures IsEarliest(a, now, r) <==> IsEarliest(b, now, r)
  {
  }

  lemma DenotedFires(es: seq<Expansion>, fields: seq<seq<Clause>>, last: Option<int>, now: int, cal: Calendar)
    requires |fields| == 5 && Denote(es, fields)
    ensures IsEarliest(Meant(fields, cal, last), now, NextFire(es, last, now, cal))
  {
    var meant := Meant(fields, cal, last);
    forall t ensures meant(t) <==> Usable(es) && Eligible(Fields(es), cal, last, t) {
      MeantIsEligible(es, fields, cal, last, t);
    }
    if Usable(es) {
      NextFireIsEarliest(es, last, now, cal);
      SameEarliest(meant, Eligibility(Fields(es), cal, last), now, NextFire(es, last, now, cal));
    }
  }

  /** From text to time: five lists of clauses, joined by commas and spaces, fire at the earliest
      whole minute of the window all of whose readings some clause means, and which is not the last
      run's; the search breaks exactly when a clause does. */
  lemma WrittenScheduleFires(fields: seq<seq<Clause>>, last: Option<int>, now: int, cal: Calendar)
    requires |fields| == 5 && forall i :: 0 <= i < 5 ==> fields[i] != []
    requires forall i, j :: 0 <= i < 5 && 0 <= j < |fields[i]| ==> fields[i][j].Valid()
    ensures var r := NextFireOf(Join(ScheduleWords(fields), " "), last, now, cal);
            && (r.Broken? <==> SomeClauseOverflows(fields))
            && (!r.Broken? ==> IsEarliest(Meant(fields, cal, last), now, r))
  {
    ScheduleTextWords(fields);
    ScheduleDenotes(fields);
    var es := ExpandFields(ScheduleWords(fields));
    UnusableNeverFires(es, last, now, cal);
    if !SomeClauseOverflows(fields) {
      DenotedFires(es, fields, last, now, cal);
    }
  }

  /** Only five non-empty fields can fire, and a search breaks exactly when an expansion does. */
  lemma UnusableNeverFires(es: seq<Expansion>, last: Option<int>, now: int, cal: Calendar)
    ensures NextFire(es, last, now, cal).In? ==> Usable(es)
    ensures NextFire(es, last, now, cal).Broken? <==> Overflowing(es)
  {
    if Usable(es) {
      NextFireIsEarliest(es, last, now, cal);
    }
  }

  /** Day, month and weekday are unrestricted; the minute and hour fields admit some time of day. */
  ghost predicate DailyAt(es: seq<Expansion>, h: nat, m: nat) {
    && Usable(es)
    && (forall v: nat :: v <= 31 ==> v in es[2].vals)
    && (forall v: nat :: v <= 12 ==> v in es[3].vals)
    && (forall v: nat :: v <= 7 ==> v in es[4].vals)
    && h < 24 && m < 60 && m in es[0].vals && h in es[1].vals
  }

  lemma StarField(star: string, max: nat)
    requires star == "*" && max <= U32_MAX
    ensures ExpandField(star, max).Values? && forall v: nat :: v <= max ==> v in ExpandField(star, max).vals
  {
    var cs := [Clause(Star, None)];
    assert FieldText(cs) == star by {
      assert Texts(cs) == ["*"];
    }
    assert cs[0].Valid() && !cs[0].Overflows(max);
    FieldRoundTrip(cs, max, 0);
    forall v: nat | v <= max ensures v in ExpandField(star, max).vals {
      FieldRoundTrip(cs, max, v);
      assert cs[0].Means(max, v);
    }
  }

  /** Well-formed clauses, none of which breaks, and one of which means `v`. */
  ghost predicate Admits(cs: seq<Clause>, max: nat, v: nat)
    requires max <= U32_MAX
  {
    && (forall j :: 0 <= j < |cs| ==> cs[j].Valid() && !cs[j].Overflows(max))
    && exists i :: 0 <= i < |cs| && cs[i].Means(max, v)
  }

  lemma WrittenField(cs: seq<Clause>, max: nat, v: nat)
    requires max <= U32_MAX && Admits(cs, max, v)
    ensures IsWord(FieldText(cs))
    ensures ExpandField(FieldText(cs), max).Values? && v in ExpandField(FieldText(cs), max).vals
  {
    FieldIsWord(cs);
    FieldRoundTrip(cs, max, v);
  }

  lemma DailyWords(words: seq<string>)
    requires |words| == 5 && IsWord(words[0]) && IsWord(words[1]) && words[2] == words[3] == words[4] == "*"
    ensures Words(Join(words, " ")) == words
  {
    assert IsWord(words[4]);
    WordsJoin(words);
  }

  /** A written daily schedule: minute clauses, hour clauses and three stars, separated by spaces. */
  lemma DailyScheduleText(minutes: seq<Clause>, hours: seq<Clause>, h: nat, m: nat, words: seq<string>)
    requires h < 24 && m < 60 && Admits(minutes, 59, m) && Admits(hours, 23, h)
    requires |words| == 5 && words[0] == FieldText(minutes) && words[1] == FieldText(hours)
    requires words[2] == words[3] == words[4] == "*"
    ensures DailyAt(ExpandFields(Words(Join(words, " "))), h, m)
  {
    WrittenField(minutes, 59, m);
    WrittenField(hours, 23, h);
    DailyWords(words);
    StarField(words[2], 31);
    StarField(words[3], 12);
    StarField(words[4], 7);
    var es := ExpandFields(words);
    assert 0 in es[2].vals && 0 in es[3].vals && 0 in es[4].vals;
  }

  lemma DailyMatches(es: seq<Expansion>, h: nat, m: nat, cal: Calendar, t: int)
    requires DailyAt(es, h, m) && ValidCalendar(cal) && Hour(t) == h && Minute(t) == m
    ensures Matches(Fields(es), cal, t)
  {
    assert cal.day(Day(t)) in es[2].vals;
  }

  /** A daily schedule always fires within a day, except when the one minute it matches in the
      window is the minute of the last run. */
  lemma DailyAlwaysFires(es: seq<Expansion>, h: nat, m: nat, last: Option<int>, now: int, cal: Calendar)
    requires DailyAt(es, h, m) && ValidCalendar(cal)
    ensures last == None ==> NextFire(es, last, now, cal).In?
    ensures NextFire(es, last, now, cal).Never?
            <==> && last.Some?
                 && forall t :: InWindow(now, t) ==> (Matches(Fields(es), cal, t) <==> t / 60 == last.value / 60)
  {
    var fields, r := Fields(es), NextFire(es, last, now, cal);
    NextFireIsEarliest(es, last, now, cal);
    var daily := WindowVisits(now, h, m);
    DailyMatches(es, h, m, cal, daily);
    if r.Never? {
      assert !Eligible(fields, cal, last, daily);
      SameMinuteMeaning(daily, last.value);
      forall t | InWindow(now, t) ensures Matches(fields, cal, t) <==> t / 60 == last.value / 60 {
        SameMinuteMeaning(t, last.value);
        assert !Eligible(fields, cal, last, t);
      }
    } else if last.Some? {
      SameMinuteMeaning(now + r.secs, last.value);
    }
  }

  // ---- the evaluate countdown ---------------------------------------------

  datatype CronJob = CronJob(name: string, enabled: bool, schedule: string, lastRun: Option<int>)

  predicate Counts(job: CronJob) {
    job.enabled && EndsWith(job.name, ":evaluate")
  }

  /** What a job contributes to the countdown. */
  ghost function JobFire(job: CronJob, now: int, cal: Calendar): Fire {
    if Counts(job) then NextFireOf(job.schedule, job.lastRun, now, cal) else Never
  }

  ghost function JobFires(jobs: seq<CronJob>, now: int, cal: Calendar): (fires: seq<Fire>)
    ensures |fires| == |jobs| && forall i :: 0 <= i < |jobs| ==> fires[i] == JobFire(jobs[i], now, cal)
  {
    seq(|jobs|, i requires 0 <= i < |jobs| => JobFire(jobs[i], now, cal))
  }

  /** `best` is the smallest delay among `fires`, unless one of them is broken. */
  predicate IsSmallest(best: Fire, fires: seq<Fire>) {
    && (best.Broken? <==> Broken in fires)
    && (best.Never? <==> forall f :: f in fires ==> f.Never?)
    && (best.In? ==> best in fires && forall f :: f in fires && f.In? ==> best.secs <= f.secs)
  }

  function Better(best: Fire, f: Fire): Fire {
    if f.In? && (!best.In? || f.secs < best.secs) then f else best
  }

  /** The smallest delay, one job after the other, until a schedule is broken. */
  function Smallest(best: Fire, fires: seq<Fire>): Fire
    decreases |fires|
  {
    if fires == [] then best
    else if fires[0].Broken? then Broken
    else Smallest(Better(best, fires[0]), fires[1..])
  }

  lemma BetterIsSmallest(best: Fire, seen: seq<Fire>, f: Fire)
    requires IsSmallest(best, seen) && !best.Broken? && !f.Broken?
    ensures IsSmallest(Better(best, f), seen + [f])
  {
    assert forall g :: g in seen + [f] <==> g in seen || g == f;
  }

  lemma {:induction false} SmallestMeaning(best: Fire, seen: seq<Fire>, fires: seq<Fire>)
    requires IsSmallest(best, seen) && !best.Broken?
    ensures IsSmallest(Smallest(best, fires), seen + fires)
    decreases |fires|
  {
    if fires == [] {
      assert seen + fires == seen;
    } else if fires[0].Broken? {
      assert (seen + fires)[|seen|] == Broken;
    } else {
      BetterIsSmallest(best, seen, fires[0]);
      SmallestMeaning(Better(best, fires[0]), seen + [fires[0]], fires[1..]);
      assert seen + [fires[0]] + fires[1..] == seen + fires;
    }
  }

  /** One turn of the loop over the jobs: disabled jobs and jobs of other kinds are passed over. */
  method FireOf(job: CronJob, now: int, cal: Calendar) returns (f: Fire)
    ensures f == JobFire(job, now, cal)
  {
    if !job.enabled || !EndsWith(job.name, ":evaluate") {
      return Never;
    }
    f := CronExpressionNextSecs(job.schedule, job.lastRun, now, cal);
  }

  /** The smallest delay over the enabled evaluate jobs; the first broken schedule stops the search. */
  method ComputeNextEvaluateSecs(jobs: seq<CronJob>, now: int, cal: Calendar) returns (best: Fire)
    ensures best == Smallest(Never, JobFires(jobs, now, cal))
  {
    ghost var fires := JobFires(jobs, now, cal);
    best := Never;
    for i := 0 to |jobs|
      invariant !best.Broken? && Smallest(best, fires[i..]) == Smallest(Never, fires)
    {
      var fire := FireOf(jobs[i], now, cal);
      assert fires[i..][0] == fire && fires[i..][1..] == fires[i + 1..];
      if fire.Broken? {
        return Broken;
      }
      if fire.In? {
        best := if best.Never? || fire.secs < best.secs then fire else best;
      }
    }
  }

  /** The countdown is the smallest delay of any counting job, nothing when none fires, and broken
      exactly when some schedule is. */
  lemma CountdownIsSmallest(jobs: seq<CronJob>, now: int, cal: Calendar)
    ensures IsSmallest(Smallest(Never, JobFires(jobs, now, cal)), JobFires(jobs, now, cal))
  {
    SmallestMeaning(Never, [], JobFires(jobs, now, cal));
    assert [] + JobFires(jobs, now, cal) == JobFires(jobs, now, cal);
  }

  /** An enabled job whose name ends in `:evaluate`. */
  ghost predicate IsEvaluateJob(job: CronJob) {
    job.enabled && exists workspace :: job.name == workspace + ":evaluate"
  }

  lemma CountsMeaning(job: CronJob)
    ensures Counts(job) <==> IsEvaluateJob(job)
  {
    var suffix := ":evaluate";
    if Counts(job) {
      assert job.name == job.name[..|job.name| - |suffix|] + suffix;
    }
    if IsEvaluateJob(job) {
      var workspace :| job.name == workspace + suffix;
      assert job.name[|job.name| - |suffix|..] == suffix;
    }
  }

  /** The job takes part, and its own schedule after its own last run fires as `f`. */
  ghost predicate FiresAs(job: CronJob, now: int, cal: Calendar, f: Fire) {
    IsEvaluateJob(job) && f == NextFireOf(job.schedule, job.lastRun, now, cal)
  }

  lemma JobFireMeaning(job: CronJob, now: int, cal: Calendar)
    ensures FiresAs(job, now, cal, JobFire(job, now, cal)) || (!IsEvaluateJob(job) && JobFire(job, now, cal) == Never)
  {
    CountsMeaning(job);
  }

  /** The countdown from the jobs themselves: the smallest delay of the enabled evaluate jobs, each
      from its own schedule and last run; other jobs do not matter. */
  lemma CountdownMeaning(jobs: seq<CronJob>, now: int, cal: Calendar, best: Fire)
    requires best == Smallest(Never, JobFires(jobs, now, cal))
    ensures best.Broken? <==> exists i :: 0 <= i < |jobs| && FiresAs(jobs[i], now, cal, Broken)
    ensures best.Never? <==> forall i, f :: 0 <= i < |jobs| && FiresAs(jobs[i], now, cal, f) ==> f.Never?
    ensures best.In? ==> exists i :: 0 <= i < |jobs| && FiresAs(jobs[i], now, cal, best)
    ensures best.In? ==>
              forall i, f :: 0 <= i < |jobs| && FiresAs(jobs[i], now, cal, f) && f.In? ==> best.secs <= f.secs
  {
    var fires := JobFires(jobs, now, cal);
    CountdownIsSmallest(jobs, now, cal);
    forall i | 0 <= i < |jobs|
      ensures fires[i] in fires
      ensures FiresAs(jobs[i], now, cal, fires[i]) || (!IsEvaluateJob(jobs[i]) && fires[i] == Never)
    {
      JobFireMeaning(jobs[i], now, cal);
    }
    forall i, f | 0 <= i < |jobs| && FiresAs(jobs[i], now, cal, f) ensures f == fires[i] {
    }
  }

  /** A countdown is between one second and a day, whatever the jobs and the clock. */
  lemma CountdownBounds(jobs: seq<CronJob>, now: int, cal: Calendar, best: Fire)
    requires best == Smallest(Never, JobFires(jobs, now, cal)) && best.In?
    ensures 1 <= best.secs <= 86400
  {
    var fires := JobFires(jobs, now, cal);
    CountdownIsSmallest(jobs, now, cal);
    var i :| 0 <= i < |fires| && fires[i] == best;
    var es := ExpandFields(Words(jobs[i].schedule));
    assert best == NextFire(es, jobs[i].lastRun, now, cal);
    UnusableNeverFires(es, jobs[i].lastRun, now, cal);
    NextFireIsEarliest(es, jobs[i].lastRun, now, cal);
  }
}
