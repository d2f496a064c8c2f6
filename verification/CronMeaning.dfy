/** From any schedule text to the time it fires. */
module CronMeaning {
  import opened Text
  import opened Decimal
  import opened CronField
  import opened CronGrammar
  import opened CronSchedule

  /** Every comma part of the word spells a clause, and one of them means `v`. */
  ghost predicate FieldMeans(word: string, max: nat, v: nat) {
    AllClauseTexts(Split(word, ',')) && SomeTextMeans(Split(word, ','), max, v)
  }

  ghost predicate FieldBreaks(word: string, max: nat) {
    SomeBreaks(Split(word, ','), max)
  }

  /** Five words mean the minute, hour, day, month and weekday of `t`, and it is not in the minute of the last run. */
  ghost predicate WordsMean(words: seq<string>, cal: Calendar, last: Option<int>, t: int) {
    && |words| == 5
    && FieldMeans(words[0], 59, t / 60 % 60)
    && FieldMeans(words[1], 23, t / 3600 % 24)
    && FieldMeans(words[2], 31, cal.day(t / 86400))
    && FieldMeans(words[3], 12, cal.month(t / 86400))
    && FieldMeans(words[4], 7, cal.weekday(t / 86400))
    && !(last.Some? && t / 60 == last.value / 60)
  }

  ghost predicate WordsBreak(words: seq<string>) {
    && |words| == 5
    && (FieldBreaks(words[0], 59) || FieldBreaks(words[1], 23) || FieldBreaks(words[2], 31)
        || FieldBreaks(words[3], 12) || FieldBreaks(words[4], 7))
  }

  ghost function Meaning(words: seq<string>, cal: Calendar, last: Option<int>): int -> bool {
    t => WordsMean(words, cal, last, t)
  }

  lemma FieldHolds(word: string, max: nat, v: nat)
    requires max <= U32_MAX
    ensures var r := ExpandField(word, max);
            (r.Overflow? <==> FieldBreaks(word, max)) && (r.Values? ==> (v in r.vals <==> FieldMeans(word, max, v)))
  {
    FieldTextMeaning(word, max, v);
  }

  lemma WordsBreakIff(words: seq<string>)
    ensures Overflowing(ExpandFields(words)) <==> WordsBreak(words)
  {
    if |words| == 5 {
      var es := ExpandFields(words);
      FieldHolds(words[0], 59, 0);
      FieldHolds(words[1], 23, 0);
      FieldHolds(words[2], 31, 0);
      FieldHolds(words[3], 12, 0);
      FieldHolds(words[4], 7, 0);
      assert Overflowing(es)
          <==> es[0].Overflow? || es[1].Overflow? || es[2].Overflow? || es[3].Overflow? || es[4].Overflow?;
    }
  }

  lemma WordsMeanEligible(words: seq<string>, cal: Calendar, last: Option<int>, t: int)
    requires !WordsBreak(words)
    ensures WordsMean(words, cal, last, t)
            <==> Usable(ExpandFields(words)) && Eligible(Fields(ExpandFields(words)), cal, last, t)
  {
    if |words| == 5 {
      WordsBreakIff(words);
      var es := ExpandFields(words);
      assert forall i :: 0 <= i < 5 ==> es[i].Values?;
      FieldHolds(words[0], 59, t / 60 % 60);
      FieldHolds(words[1], 23, t / 3600 % 24);
      FieldHolds(words[2], 31, cal.day(t / 86400));
      FieldHolds(words[3], 12, cal.month(t / 86400));
      FieldHolds(words[4], 7, cal.weekday(t / 86400));
      if last.Some? {
        SameMinuteMeaning(t, last.value);
      }
      MatchesFive(es, cal, t);
    }
  }

  lemma MatchesFive(es: seq<Expansion>, cal: Calendar, t: int)
    requires |es| == 5 && forall i :: 0 <= i < 5 ==> es[i].Values?
    ensures Usable(es) && Matches(Fields(es), cal, t)
            <==> && t / 60 % 60 in es[0].vals && t / 3600 % 24 in es[1].vals
                 && cal.day(t / 86400) in es[2].vals && cal.month(t / 86400) in es[3].vals
                 && cal.weekday(t / 86400) in es[4].vals
  {
  }

  /** For any text, clock, calendar and last run: the search breaks exactly when one of five fields
      does, and otherwise finds the earliest whole minute of the window that the five words mean; a
      text of other than five words, or with a part that spells no clause, means no minute at all. */
  lemma ScheduleTextFires(expr: string, last: Option<int>, now: int, cal: Calendar)
    ensures var r := NextFireOf(expr, last, now, cal);
            && (r.Broken? <==> WordsBreak(Words(expr)))
            && (!r.Broken? ==> IsEarliest(Meaning(Words(expr), cal, last), now, r))
  {
    var words := Words(expr);
    var es := ExpandFields(words);
    WordsBreakIff(words);
    UnusableNeverFires(es, last, now, cal);
    if !WordsBreak(words) {
      forall t ensures WordsMean(words, cal, last, t) <==> Usable(es) && Eligible(Fields(es), cal, last, t) {
        WordsMeanEligible(words, cal, last, t);
      }
      if Usable(es) {
        NextFireIsEarliest(es, last, now, cal);
        SameEarliest(Meaning(words, cal, last), Eligibility(Fields(es), cal, last), now, NextFire(es, last, now, cal));
      }
    }
  }
}
