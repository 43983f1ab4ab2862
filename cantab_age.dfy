/**
 * `imagen_cantab_age_at_session_start_time.py`: for each CANTAB
 * datasheet, the age in days of the subject on the day of the session,
 * printed as `psc2,age`. A datasheet is skipped unless it names exactly
 * one subject, whose PSC1 code has a PSC2 code with a known birth date,
 * and unless its session start times fall on exactly one day, no
 * earlier than 1 January 2007.
 */
module CantabAge {

  import opened Wrappers
  import opened Text
  import opened Dates
  import opened Rows

  /** A `datetime`: its date and the time of day, in seconds. */
  datatype DateTime = DateTime(date: Date, seconds: nat)

  /** What the script uses of `read_datasheet(path)`: the subject IDs and the session start times. */
  datatype Datasheet = Datasheet(subjectIds: set<string>, sessionStartTimes: seq<DateTime>)

  /** Session start times are `datetime` values, so their dates are real dates. */
  predicate ValidSheet(sheet: Datasheet)
  {
    forall i :: 0 <= i < |sheet.sessionStartTimes| ==> Valid(sheet.sessionStartTimes[i].date)
  }

  predicate ValidSheets(sheets: seq<Datasheet>)
  {
    forall i :: 0 <= i < |sheets| ==> ValidSheet(sheets[i])
  }

  /** `date(2007, 1, 1)`: a session before it is bogus. */
  const FirstSession: Date := Date(2007, 1, 1)

  /** What `main` makes of one datasheet: the reason it is skipped, or the age it prints. */
  datatype Verdict =
    | NoSubject
    | UnknownPsc1(psc1: string)
    | UnknownDob(psc2: string)
    | NoSessionDate
    | BogusSession(session: Date)
    | Age(psc2: string, days: int)

  /** `s.pop()` on a set of one element. */
  function Only<T(==)>(s: set<T>): (x: T)
    requires |s| == 1
    ensures x in s && s == {x}
  {
    var x :| x in s;
    assert s == {x} by {
      assert |s - {x}| == 0;
    }
    x
  }

  /** `set([sst.date() for sst in session_start_times])` */
  function SessionDates(times: seq<DateTime>): (dates: set<Date>)
    ensures (forall i :: 0 <= i < |times| ==> Valid(times[i].date)) ==> forall d :: d in dates ==> Valid(d)
  {
    set i | 0 <= i < |times| :: times[i].date
  }

  /** The decision of the loop body of `main` for one datasheet, guard by guard. */
  function VerdictOf(psc2FromPsc1: map<string, string>, dob: map<string, Date>, sheet: Datasheet): Verdict
    requires ValidDob(dob) && ValidSheet(sheet)
  {
    if |sheet.subjectIds| != 1 then NoSubject
    else
      var psc1 := Only(sheet.subjectIds);
      if psc1 !in psc2FromPsc1 then UnknownPsc1(psc1)
      else
        var psc2 := psc2FromPsc1[psc1];
        if psc2 !in dob then UnknownDob(psc2)
        else
          var dates := SessionDates(sheet.sessionStartTimes);
          if |dates| != 1 then NoSessionDate
          else
            var session := Only(dates);
            if Before(session, FirstSession) then BogusSession(session)
            else Age(psc2, DaysBetween(session, dob[psc2]))
  }

  /** `'{0},{1}'.format(psc2, age)` */
  function AgeLine(psc2: string, days: int): string
  {
    psc2 + "," + IntToString(days)
  }

  /**
   * A datasheet is printed exactly when it names one subject, known in
   * both tables, and all its sessions start on one day no earlier than
   * 1 January 2007; the age is then the number of days from the birth
   * date to that day, positive exactly when the birth date comes first.
   */
  lemma AgePrinted(psc2FromPsc1: map<string, string>, dob: map<string, Date>, sheet: Datasheet)
    requires ValidDob(dob) && ValidSheet(sheet)
    ensures VerdictOf(psc2FromPsc1, dob, sheet).Age? <==>
      exists psc1, session :: (sheet.subjectIds == {psc1} && psc1 in psc2FromPsc1 && psc2FromPsc1[psc1] in dob &&
        SessionDates(sheet.sessionStartTimes) == {session} && !Before(session, FirstSession))
    ensures VerdictOf(psc2FromPsc1, dob, sheet).Age? ==>
      var v := VerdictOf(psc2FromPsc1, dob, sheet);
      var session := Only(SessionDates(sheet.sessionStartTimes));
      v.psc2 == psc2FromPsc1[Only(sheet.subjectIds)] &&
      v.days == Ordinal(session) - Ordinal(dob[v.psc2]) &&
      (v.days > 0 <==> Before(dob[v.psc2], session))
  {
    var dates := SessionDates(sheet.sessionStartTimes);
    if |sheet.subjectIds| == 1 && |dates| == 1 {
      var psc1 := Only(sheet.subjectIds);
      var session := Only(dates);
      assert session in dates;
      var i :| 0 <= i < |sheet.sessionStartTimes| && sheet.sessionStartTimes[i].date == session;
      assert Valid(session);
      if psc1 in psc2FromPsc1 && psc2FromPsc1[psc1] in dob {
        OrdinalOrder(dob[psc2FromPsc1[psc1]], session);
      }
    }
    if exists psc1, session :: (sheet.subjectIds == {psc1} && psc1 in psc2FromPsc1 && psc2FromPsc1[psc1] in dob &&
        SessionDates(sheet.sessionStartTimes) == {session} && !Before(session, FirstSession)) {
      var psc1, session :| sheet.subjectIds == {psc1} && psc1 in psc2FromPsc1 && psc2FromPsc1[psc1] in dob &&
        SessionDates(sheet.sessionStartTimes) == {session} && !Before(session, FirstSession);
      assert |sheet.subjectIds| == 1 && |dates| == 1;
    }
  }

  /** The printed line reads back as the PSC2 code and the decimal age (PSC2 codes hold no ','). */
  lemma AgeLineFields(psc2: string, days: int)
    requires ',' !in psc2
    ensures Split(AgeLine(psc2, days), ',') == [psc2, IntToString(days)]
  {
    NumberWithout(days, ',');
    SplitFirst(psc2, ',', IntToString(days));
    SplitNone(IntToString(days), ',');
    assert AgeLine(psc2, days) == psc2 + [','] + IntToString(days);
  }

  /** The lines printed for the first `n` datasheets, in order. */
  function Printed(psc2FromPsc1: map<string, string>, dob: map<string, Date>, sheets: seq<Datasheet>, n: nat): seq<string>
    requires n <= |sheets| && ValidDob(dob) && ValidSheets(sheets)
    decreases n
  {
    if n == 0 then []
    else
      var v := VerdictOf(psc2FromPsc1, dob, sheets[n - 1]);
      Printed(psc2FromPsc1, dob, sheets, n - 1) + if v.Age? then [AgeLine(v.psc2, v.days)] else []
  }

  /** `line` is what `main` prints for `sheet`. */
  predicate PrintedFor(psc2FromPsc1: map<string, string>, dob: map<string, Date>, sheet: Datasheet, line: string)
    requires ValidDob(dob) && ValidSheet(sheet)
  {
    var v := VerdictOf(psc2FromPsc1, dob, sheet);
    v.Age? && line == AgeLine(v.psc2, v.days)
  }

  /**
   * At most one line is printed per datasheet, and each line printed is
   * the age line of one of them.
   */
  lemma {:induction false} PrintedFrom(psc2FromPsc1: map<string, string>, dob: map<string, Date>, sheets: seq<Datasheet>, n: nat)
    requires n <= |sheets| && ValidDob(dob) && ValidSheets(sheets)
    ensures |Printed(psc2FromPsc1, dob, sheets, n)| <= n
    ensures forall k :: 0 <= k < |Printed(psc2FromPsc1, dob, sheets, n)| ==>
      exists i :: 0 <= i < n && PrintedFor(psc2FromPsc1, dob, sheets[i], Printed(psc2FromPsc1, dob, sheets, n)[k])
    decreases n
  {
    if n > 0 {
      PrintedFrom(psc2FromPsc1, dob, sheets, n - 1);
      var before := Printed(psc2FromPsc1, dob, sheets, n - 1);
      var all := Printed(psc2FromPsc1, dob, sheets, n);
      forall k | 0 <= k < |all|
        ensures exists i :: 0 <= i < n && PrintedFor(psc2FromPsc1, dob, sheets[i], all[k])
      {
        if k < |before| {
          var i :| 0 <= i < n - 1 && PrintedFor(psc2FromPsc1, dob, sheets[i], before[k]);
          assert all[k] == before[k];
        } else {
          assert PrintedFor(psc2FromPsc1, dob, sheets[n - 1], all[k]);
        }
      }
    }
  }

  /** The body of the `for datasheet in datasheets` loop, with its `continue` guards. */
  method SheetStep(psc2FromPsc1: map<string, string>, dob: map<string, Date>, sheet: Datasheet) returns (v: Verdict)
    requires ValidDob(dob) && ValidSheet(sheet)
    ensures v == VerdictOf(psc2FromPsc1, dob, sheet)
  {
    var subjectIds := sheet.subjectIds;
    if |subjectIds| != 1 {
      return NoSubject;
    }
    var psc1 :| psc1 in subjectIds;
    assert psc1 == Only(subjectIds);
    if psc1 !in psc2FromPsc1 {
      return UnknownPsc1(psc1);
    }
    var psc2 := psc2FromPsc1[psc1];
    if psc2 !in dob {
      return UnknownDob(psc2);
    }
    var birth := dob[psc2];
    var sessionDates := SessionDates(sheet.sessionStartTimes);
    if |sessionDates| != 1 {
      return NoSessionDate;
    }
    var session :| session in sessionDates;
    assert session == Only(sessionDates);
    if Before(session, FirstSession) {
      return BogusSession(session);
    }
    return Age(psc2, DaysBetween(session, birth));
  }

  /**
   * `main` over the datasheets `glob` finds, read with `read_datasheet`:
   * the lines it prints, in order.
   */
  method AgesAtSessionStart(psc2FromPsc1: map<string, string>, dob: map<string, Date>, sheets: seq<Datasheet>)
    returns (lines: seq<string>)
    requires ValidDob(dob) && ValidSheets(sheets)
    ensures lines == Printed(psc2FromPsc1, dob, sheets, |sheets|)
  {
    lines := [];
    for i := 0 to |sheets|
      invariant lines == Printed(psc2FromPsc1, dob, sheets, i)
    {
      var v := SheetStep(psc2FromPsc1, dob, sheets[i]);
      if v.Age? {
        lines := lines + [AgeLine(v.psc2, v.days)];
      } else {
        assert lines + [] == lines;
      }
    }
  }
}
