/** The interview-scheduling form (studio/src/components/interview-form.tsx):
    its schema, the combination of the picked day with the typed time, the
    interviewer lookup and the days the calendar refuses. */
module InterviewForm {
  import opened Types
  import opened Clock

  /** The values the form holds. A type or a day not yet picked is absent. */
  datatype InterviewValues = InterviewValues(
    interviewerId: string,
    kind: Option<string>,
    day: Option<int>,
    time: string,
    notes: Option<string>)

  /** What the form hands to the dashboard on submit. */
  datatype Submission = Submission(
    interviewerId: string,
    interviewerName: string,
    kind: InterviewType,
    date: int,
    notes: Option<string>)

  /** `z.enum(['Online', 'Presencial'])`. */
  function ParseInterviewType(s: string): (r: Option<InterviewType>)
    ensures r.Some? ==> InterviewTypeName(r.value) == s
    ensures r.None? ==> forall t :: InterviewTypeName(t) != s
  {
    if s == "Online" then Some(Online)
    else if s == "Presencial" then Some(Presencial)
    else None
  }

  /** formSchema: any interviewer id string (the empty default included), a
      known type, a day, and a time matching the HH:MM pattern. */
  predicate SchemaAccepts(v: InterviewValues) {
    && v.kind.Some? && ParseInterviewType(v.kind.value).Some?
    && v.day.Some?
    && TimePattern(v.time)
  }

  /** `interviewers.find(i => i.id === id)`: the position of the first
      interviewer with that id at or after `from`. */
  function FindInterviewer(interviewers: seq<Interviewer>, id: string, from: nat): (r: Option<nat>)
    ensures r.Some? ==> from <= r.value < |interviewers| && interviewers[r.value].id == id
    ensures r.Some? ==> forall j :: from <= j < r.value ==> interviewers[j].id != id
    ensures r.None? ==> forall j :: from <= j < |interviewers| ==> interviewers[j].id != id
    decreases |interviewers| - from
  {
    if from >= |interviewers| then None
    else if interviewers[from].id == id then Some(from)
    else FindInterviewer(interviewers, id, from + 1)
  }

  /** `interviewer?.name ?? 'N/A'`: the first matching interviewer's name, which
      may be empty, or N/A when none matches. */
  function InterviewerNameOrNA(interviewers: seq<Interviewer>, id: string): (name: string)
    ensures (forall j :: 0 <= j < |interviewers| ==> interviewers[j].id != id) ==> name == "N/A"
    ensures forall j ::
              (0 <= j < |interviewers| && interviewers[j].id == id && forall k :: 0 <= k < j ==> interviewers[k].id != id)
              ==> name == interviewers[j].name
  {
    match FindInterviewer(interviewers, id, 0)
    case None => "N/A"
    case Some(j) => interviewers[j].name
  }

  /** handleInternalSubmit's `new Date(day)`, `setHours` and `setMinutes`. */
  method CombineDateTime(day: int, time: ClockTime) returns (t: int)
    requires ValidClockTime(time)
    ensures DayOf(t) == DayOf(day)
    ensures HourOf(t) == time.hours && MinuteOf(t) == time.minutes
    ensures SubMinute(t) == SubMinute(day)
  {
    t := day;
    t := SetHours(t, time.hours);
    t := SetMinutes(t, time.minutes);
  }

  /** handleInternalSubmit: the submission carries the picked day at the typed
      time, the looked-up interviewer name, the type and the notes as given. */
  method Submit(v: InterviewValues, interviewers: seq<Interviewer>) returns (s: Submission)
    requires SchemaAccepts(v)
    ensures s.interviewerId == v.interviewerId
    ensures s.interviewerName == InterviewerNameOrNA(interviewers, v.interviewerId)
    ensures InterviewTypeName(s.kind) == v.kind.value
    ensures s.notes == v.notes
    ensures DayOf(s.date) == DayOf(v.day.value) && SubMinute(s.date) == SubMinute(v.day.value)
    ensures FormatTime(ClockTime(HourOf(s.date), MinuteOf(s.date))) == v.time
  {
    var time := ParseTime(v.time).value;
    var date := CombineDateTime(v.day.value, time);
    s := Submission(v.interviewerId, InterviewerNameOrNA(interviewers, v.interviewerId),
                    ParseInterviewType(v.kind.value).value, date, v.notes);
  }

  /** Editing an interview fills the time field with the stored instant's
      HH:mm; submitting it unchanged gives back the stored instant. */
  lemma UnchangedTimeKeepsInstant(t: int)
    ensures ParseTime(FormatTime(ClockTime(HourOf(t), MinuteOf(t)))) == Some(ClockTime(HourOf(t), MinuteOf(t)))
    ensures SetMinutes(SetHours(t, HourOf(t)), MinuteOf(t)) == t
  {
    Decompose(t);
    ParseFormatted(ClockTime(HourOf(t), MinuteOf(t)));
    var r := SetMinutes(SetHours(t, HourOf(t)), MinuteOf(t));
    Decompose(r);
  }

  // ----- Days the calendar refuses -----

  /** `new Date("1900-01-01")`: midnight at the start of 1900, an exact day. */
  const Start1900: int := -25567 * MsPerDay

  /** The calendar's `disabled` rule as written, for a day given as its local
      midnight: before the current instant, or before 1900. */
  predicate DayDisabledAsWritten(day: int, now: int) {
    day < now || day < Start1900
  }

  /** As written, today is refused whenever the current instant is not exactly
      midnight, since today's midnight lies before it. */
  lemma TodayRefusedAsWritten(now: int)
    requires now % MsPerDay != 0
    ensures DayDisabledAsWritten(StartOfDay(now), now)
  {
  }

  /** The rule that keeps the past out but today in: days before today's
      date, or before 1900, are refused. */
  predicate DayDisabled(day: int, now: int) {
    day < StartOfDay(now) || day < Start1900
  }

  /** For days given as midnights, a day is refused exactly when its date is
      before today's or before 1900; in particular today is offered from 1900 on. */
  lemma DayDisabledMeansPast(day: int, now: int)
    requires day % MsPerDay == 0
    ensures DayDisabled(day, now) <==> DayOf(day) < DayOf(now) || DayOf(day) < -25567
    ensures now >= Start1900 ==> !DayDisabled(StartOfDay(now), now)
  {
    assert day == DayOf(day) * MsPerDay;
    if now >= Start1900 {
      assert DayOf(now) >= -25567;
    }
  }
}
