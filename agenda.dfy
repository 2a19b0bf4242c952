/** The agenda page's calendar (studio/src/components/agenda-page.tsx): the stored
    interviews, listed by ascending date, each shown as a one-hour event
    titled with its start time and the candidate's name. */
module Agenda {
  import opened Types
  import opened Clock
  import opened Sorting

  datatype CalendarEvent = CalendarEvent(title: string, start: int, end: int, resource: Interview)

  function DateKey(iv: Interview): real {
    iv.date as real
  }

  /** The clock time an instant shows, as `HH:mm` reads it. */
  function ClockOf(t: int): (c: ClockTime)
    ensures ValidClockTime(c)
  {
    Decompose(t);
    ClockTime(HourOf(t), MinuteOf(t))
  }

  /** One interview as a calendar event: it starts at the interview's instant,
      lasts one hour, carries the interview, and its title is the start time
      as `HH:mm`, a dash, and the candidate's name. */
  function ToEvent(iv: Interview): (e: CalendarEvent)
    ensures e.start == iv.date && e.end - e.start == MsPerHour
    ensures e.resource == iv
    ensures |e.title| == 8 + |iv.candidateName|
    ensures e.title[5..8] == " - " && e.title[8..] == iv.candidateName
    ensures ParseTime(e.title[..5]) == Some(ClockOf(iv.date))
  {
    var time := FormatTime(ClockOf(iv.date));
    ParseFormatted(ClockOf(iv.date));
    var title := time + " - " + iv.candidateName;
    assert title[..5] == time;
    CalendarEvent(title, iv.date, iv.date + MsPerHour, iv)
  }

  /** `interviewsData.map(...)`: one event per listed interview, in order. */
  function ToEvents(ivs: seq<Interview>): (es: seq<CalendarEvent>)
    ensures |es| == |ivs|
    ensures forall i :: 0 <= i < |ivs| ==> es[i] == ToEvent(ivs[i])
  {
    if ivs == [] then [] else [ToEvent(ivs[0])] + ToEvents(ivs[1..])
  }

  /** What `query(collection(db, "interviews"), orderBy("date", "asc"))`
      answers: every stored interview once, in ascending date order. */
  ghost predicate ListingOf(interviews: map<string, Interview>, docs: seq<Interview>) {
    && SortedBy(docs, DateKey)
    && |docs| == |interviews|
    && forall iv :: iv in docs <==> iv in interviews.Values
  }

  /** The stored interviews in some order. */
  ghost function ValuesOf(m: map<string, Interview>): (r: seq<Interview>)
    ensures |r| == |m|
    ensures forall iv :: iv in r <==> iv in m.Values
    decreases |m|
  {
    if m == map[] then []
    else
      var k :| k in m;
      var rest := m - {k};
      assert m.Values == rest.Values + {m[k]} by {
        forall iv | iv in m.Values ensures iv in rest.Values + {m[k]} {
          var k' :| k' in m && m[k'] == iv;
          if k' != k { assert k' in rest; }
        }
      }
      ValuesOf(rest) + [m[k]]
  }

  /** Every state of the collection has such a listing. */
  lemma ListingExists(interviews: map<string, Interview>)
    ensures ListingOf(interviews, SortBy(ValuesOf(interviews), DateKey))
  {
    var vs := ValuesOf(interviews);
    var docs := SortBy(vs, DateKey);
    forall iv
      ensures iv in docs <==> iv in vs
    {
      assert iv in docs <==> iv in multiset(docs);
      assert iv in vs <==> iv in multiset(vs);
    }
  }

  /** fetchInterviews: the calendar shows one event per stored interview, each
      an hour long, in ascending order of start. */
  lemma EventsOfListing(interviews: map<string, Interview>, docs: seq<Interview>)
    requires ListingOf(interviews, docs)
    ensures var es := ToEvents(docs);
            && |es| == |interviews|
            && (forall i, j :: 0 <= i < j < |es| ==> es[i].start <= es[j].start)
            && (forall i :: 0 <= i < |es| ==> es[i].end == es[i].start + MsPerHour && es[i].resource in interviews.Values)
            && (forall iv :: iv in interviews.Values ==> exists i :: 0 <= i < |es| && es[i] == ToEvent(iv))
  {
    var es := ToEvents(docs);
    forall i, j | 0 <= i < j < |es|
      ensures es[i].start <= es[j].start
    {
      assert DateKey(docs[i]) <= DateKey(docs[j]);
    }
    forall iv | iv in interviews.Values
      ensures exists i :: 0 <= i < |es| && es[i] == ToEvent(iv)
    {
      var i :| 0 <= i < |docs| && docs[i] == iv;
      assert es[i] == ToEvent(iv);
    }
    forall i | 0 <= i < |es|
      ensures es[i].resource in interviews.Values
    {
      assert docs[i] in docs;
    }
  }
}
