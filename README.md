# Talentus2 candidate lifecycle, modelled in Dafny

Talentus2 is an applicant-tracking app. Recruiters register candidates. A
candidate moves through six statuses: Em Triagem, Entrevista, Teste Técnico,
Oferta, Contratado and Rejeitado. Along the way recruiters schedule and cancel
interviews, edit profiles and delete candidates. The pages show the
candidates grouped by current status, an agenda of the interviews and a
chart of how long candidates stay in each stage.

This project models that core. Each file is one concern:

- `types.dfy`: the records of `studio/src/lib/types.ts`. Dates are integer
  milliseconds.
- `history.dfy`: `getLatestStatus`. The current entry is the first one
  holding the greatest date.
- `store.dfy`: the two Firestore collections as a value.
  - A write batch commits all or nothing.
  - `update` of a missing document fails the batch, `delete` of a missing
    one does not, and `set` creates or overwrites.
  - Lemmas state the invariants every handler keeps:
    - every record sits under its id;
    - every history is non-empty;
    - every interview belongs to a stored candidate;
    - every current entry links only to an interview of its own candidate.
- `lifecycle.dfy`: a class whose two map fields are the collections. It has
  six handlers: add, edit, change status, schedule, cancel and delete. Each
  builds its batch and commits it once.
- `board.dfy`: the dashboard's derived views:
  - the search filter, the tabs and the status counts;
  - the summary cards;
  - where picking a status leads.
- `agenda.dfy`: the calendar. Each stored interview is a one-hour event, in
  date order.
- `metrics.dfy`: the stage-duration chart. It has the loop over consecutive
  history entries, the record of durations per label, the averages and
  their order.
- `candidate_form.dfy`: the candidate form:
  - the field and file rules;
  - the duplicate-CPF rule;
  - the CPF input mask;
  - the documents handed on after submit.
- `interview_form.dfy`: the interview form:
  - the schema and its HH:MM pattern;
  - the combination of day and time;
  - the interviewer lookup;
  - the days the calendar refuses.
- `clock.dfy`, `strings.dfy`, `sorting.dfy`: local wall-clock arithmetic,
  JavaScript string operations and `Array.prototype.sort` by a numeric key.

Some things are parameters of the operations, never computed:

- fresh document ids;
- the current instant;
- the signed-in user's e-mail;
- the answers of the storage service, per upload and per removal;
- the store's acceptance of a commit;
- the locale text of a date;
- the verdict of zod's e-mail pattern.

## Model

| member | source | states |
|---|---|---|
| Types.ParseStatus | studio/src/lib/types.ts:1 | A literal is a status exactly when it is one of the six names, and then reads back as that name. |
| Types.StatusesClosed | studio/src/lib/types.ts:1 | The six statuses form a closed union. The tab order lists each of them exactly once, and each name parses back to its status. |
| History.LatestIndex | src/components/dashboard.tsx:162-164 | The entry getLatestStatus picks is dated no earlier than any other and strictly later than every entry before it. |
| History.LatestIndexUnique | src/components/dashboard.tsx:162-164 | Those two properties determine the picked position: it is the first position holding the greatest date. |
| History.LatestAfterNewerAppend | src/components/dashboard.tsx:286-287 | An appended entry dated after all others becomes the current entry. |
| History.LatestAfterOlderAppend | src/components/dashboard.tsx:162-164 | An appended entry dated no later than the current one leaves the current entry unchanged. Ties keep the older entry. |
| Sorting.SortBy | src/components/hiring-metrics-chart.tsx:33-35 | The sorted copy is in ascending key order and is a permutation of the input. |
| Sorting.SortSorted | src/components/hiring-metrics-chart.tsx:33-35 | Sorting data already in key order returns it unchanged. |
| Strings.Digits | studio/src/components/candidate-form.tsx:94 | Removing non-digits leaves only digits, and leaves a string of digits as it was. |
| Strings.DigitsKeepsDigitCounts | studio/src/components/candidate-form.tsx:94 | Each digit is kept as often as it occurs in the input, and no other character is kept. |
| Strings.DigitsConcat | studio/src/components/candidate-form.tsx:94 | The digits of two joined strings are the digits of the first followed by those of the second, so their order is kept. |
| Strings.Trim | src/components/dashboard.tsx:358 | Trimming returns a slice of the input with no white space at either end, and everything cut off is white space. |
| Strings.TrimAfter | src/components/dashboard.tsx:358 | Trimming a text that opens with a non-blank headline keeps the headline. A blank tail vanishes. |
| Strings.LowerChar | src/components/dashboard.tsx:469 | A-Z and the Latin-1 capitals other than the multiplication sign map to the letter 32 code points up. The multiplication sign and every other character are kept. |
| Strings.Lower | src/components/dashboard.tsx:469 | Lower-casing maps each character on its own and keeps the length. |
| Strings.ContainsAt | src/components/dashboard.tsx:469-471 | `includes` holds exactly when the term occurs at some offset. |
| Clock.SetHours | studio/src/components/interview-form.tsx:64 | setHours changes the hour only: the day, minute and seconds stay. |
| Clock.SetMinutes | studio/src/components/interview-form.tsx:65 | setMinutes changes the minute only: the day, hour and seconds stay. |
| Clock.ParseTime | studio/src/components/interview-form.tsx:32 | A time parses exactly when it matches the HH:MM pattern. It then gives a valid clock time that formats back to the same text. |
| Clock.ParseFormatted | studio/src/components/interview-form.tsx:51 | Every clock time, formatted as HH:mm, parses back to itself. |
| CandidateForm.FindQuad | studio/src/components/candidate-form.tsx:95-96 | The match of `/(\d{3})(\d)/` is the leftmost position where four digits start, or there is none. |
| CandidateForm.FindTail | studio/src/components/candidate-form.tsx:97 | The match of `/(\d{3})(\d{1,2})$/` is the leftmost position from which four or five digits end the string, or there is none. |
| CandidateForm.DotsOfDigits | studio/src/components/candidate-form.tsx:95-96 | On digits, the two dot replacements put a dot after the third digit, and after the sixth when there are seven or more. |
| CandidateForm.MaskCpfCases | studio/src/components/candidate-form.tsx:92-99 | The mask depends only on the digits typed. Its output has four cases, by the number of digits. |
| CandidateForm.MaskKeepsDigits | studio/src/components/candidate-form.tsx:92-99 | The masked value holds exactly the digits typed, in order. |
| CandidateForm.MaskIdempotent | studio/src/components/candidate-form.tsx:92-99 | Masking an already masked value changes nothing. |
| CandidateForm.MaskedLength | studio/src/components/candidate-form.tsx:95-97 | The mask adds no separator below four digits, one up to six, two up to nine, and three from ten on. |
| CandidateForm.ElevenDigitsFormat | studio/src/components/candidate-form.tsx:95-97 | Eleven digits are masked into the XXX.XXX.XXX-XX layout. |
| CandidateForm.MaskFormatsCpf | studio/src/components/candidate-form.tsx:38 | The masked value passes the CPF pattern exactly when eleven digits were typed. |
| CandidateForm.MaskKeepsFormattedCpf | studio/src/components/candidate-form.tsx:92-99 | A well-formed CPF typed or pasted whole comes out of the mask unchanged. |
| CandidateForm.DuplicateOnlyOnCreate | studio/src/components/candidate-form.tsx:62-68 | An edit passes the duplicate rule whatever CPFs exist. A creation passes exactly when the CPF is not registered yet. |
| CandidateForm.SubmittedFilesAccepted | studio/src/components/candidate-form.tsx:22-33 | A form the schema accepts hands on only files of at most 5 MB whose type is JPEG, PNG or PDF. |
| CandidateForm.SubmittedDocuments | studio/src/components/candidate-form.tsx:102-109 | Exactly the rows carrying a file are handed on. Each is named after its file and has an empty URL. |
| CandidateForm.SubmittedDocumentsOfRow | studio/src/components/candidate-form.tsx:102-109 | A single row hands on its document when it has a file, and nothing when it has none. |
| CandidateForm.SubmittedDocumentsConcat | studio/src/components/candidate-form.tsx:102-109 | Filter-then-map works row by row: two runs of rows hand on their documents in order, each row once, so the upload list lines up by position. |
| InterviewForm.ParseInterviewType | studio/src/components/interview-form.tsx:30 | Only "Online" and "Presencial" are interview types, and each reads back as its name. |
| InterviewForm.FindInterviewer | studio/src/components/interview-form.tsx:67 | `find` returns the first interviewer with that id, or none when no interviewer has it. |
| InterviewForm.InterviewerNameOrNA | studio/src/components/interview-form.tsx:71 | The name is that of the first interviewer with the id, or "N/A" when none has it. |
| InterviewForm.CombineDateTime | studio/src/components/interview-form.tsx:62-65 | The combined instant keeps the picked day and its seconds, at the typed hour and minute. |
| InterviewForm.Submit | studio/src/components/interview-form.tsx:61-76 | The submission carries the id, the looked-up name, the type and the notes as given. Its time formats back to the typed HH:MM. |
| InterviewForm.UnchangedTimeKeepsInstant | studio/src/components/interview-form.tsx:48-51 | When an edit keeps the prefilled time, submitting gives back the stored instant. |
| InterviewForm.TodayRefusedAsWritten | studio/src/components/interview-form.tsx:156 | As written, today is refused unless the current instant is exactly midnight. |
| InterviewForm.DayDisabledMeansPast | studio/src/components/interview-form.tsx:156 | With the corrected rule, a day is refused exactly when it is before today or before 1900. Today is offered. |
| Lifecycle.UploadedDocuments | src/components/dashboard.tsx:172-179 | Promise.all succeeds exactly when every upload does. It then gives one document per submitted file, with that file's name and URL. |
| Lifecycle.RemovalsTolerated | src/components/dashboard.tsx:422-436 | A deletion goes on exactly when every removal of a document with a URL succeeded or found the file already gone. |
| Lifecycle.RemovedFiles | src/components/dashboard.tsx:423-436 | The files removed are exactly the documents' non-empty URLs whose removal succeeded, even when the deletion then aborts. |
| Lifecycle.Edited | src/components/dashboard.tsx:242-253 | An edit keeps the id, the CPF, the history and the creator, and appends the uploads to the stored documents. |
| Lifecycle.InterviewerLabel | src/components/dashboard.tsx:356-358 | The interviewer named in the scheduling note is never empty. |
| Lifecycle.LabelAgreesWithForm | src/components/dashboard.tsx:358 | The note's interviewer is the form's looked-up name, except that an empty name reads "N/A". |
| Lifecycle.ScheduleNoteShape | src/components/dashboard.tsx:357-358 | The scheduling note always opens with its headline. It is the headline alone when the interview notes are absent or blank. |
| Lifecycle.Coordinator.Commit | src/components/dashboard.tsx:306 | A commit applies every write of the batch when the store accepts it and no update hits a missing document. Otherwise nothing changes. |
| Lifecycle.Coordinator.AddCandidate | src/components/dashboard.tsx:166-197 | Failed uploads or a refused commit change nothing. Otherwise one record appears under the fresh id, with one "Em Triagem" entry and the uploaded documents. The invariants are kept. |
| Lifecycle.Coordinator.UpdateCandidate | src/components/dashboard.tsx:218-255 | A missing candidate, failed uploads or a refused commit change nothing. Otherwise only the profile fields, the appended documents and the update stamps change. |
| Lifecycle.Coordinator.ChangeStatus | src/components/dashboard.tsx:276-306 | Notes under ten characters, a missing candidate or a refused commit change nothing. Otherwise one entry is appended, and the linked interview is deleted when the current entry was an Entrevista with a link. The invariants are kept. |
| Lifecycle.Coordinator.ScheduleInterview | src/components/dashboard.tsx:338-377 | On success the new interview is stored under the fresh id, and the candidate gets an Entrevista entry linking to it. Otherwise nothing changes. The invariants are kept. |
| Lifecycle.Coordinator.CancelInterview | studio/src/components/agenda-page.tsx:88-127 | A missing candidate or a refused commit changes nothing. Otherwise the interview is deleted and an Em Triagem entry is appended. The invariants are kept. |
| Lifecycle.Coordinator.InterviewsOf | src/components/dashboard.tsx:415-419 | The query finds each of the candidate's stored interviews exactly once. |
| Lifecycle.Coordinator.DeleteCandidate | src/components/dashboard.tsx:405-443 | A removal error other than a missing file, or a refused commit, changes nothing. Otherwise the record and all of its interviews are gone and the invariants are kept. |
| Store.ScheduleBatch | src/components/dashboard.tsx:341-377 | Scheduling's two writes store the interview and append the entry to a stored candidate. |
| Store.CancelBatch | studio/src/components/agenda-page.tsx:104-127 | Cancelling's two writes delete the interview and append the entry to a stored candidate. |
| Store.ApplyCandidateDeletion | src/components/dashboard.tsx:412-443 | The deletion batch removes the record and exactly that candidate's interviews. |
| Store.AddKeepsInvariant | src/components/dashboard.tsx:181-197 | A new record with one unlinked entry keeps the invariants. |
| Store.EditKeepsInvariant | src/components/dashboard.tsx:244-255 | Overwriting profile fields keeps the invariants. |
| Store.ChangeStatusPreserves | src/components/dashboard.tsx:286-304 | Appending an unlinked newest entry keeps the invariants, even with the deletion of the interview the old current entry linked to. |
| Store.ScheduleKeepsInvariant | src/components/dashboard.tsx:345-374 | Storing a fresh interview and linking a newest entry to it keeps the invariants. |
| Store.CancelKeepsInvariant | studio/src/components/agenda-page.tsx:106-124 | Deleting the event's interview while appending an unlinked newest entry keeps the invariants. |
| Store.DeleteKeepsInvariant | src/components/dashboard.tsx:414-441 | Deleting a candidate with all of its interviews keeps the invariants. |
| Board.FilterCandidates | src/components/dashboard.tsx:465-473 | An empty term keeps every candidate. Otherwise the result keeps exactly the matching candidates, each as often as it occurs. |
| Board.Group | src/components/dashboard.tsx:477-481 | A group holds exactly the candidates whose current status is that status. |
| Board.GroupCandidates | src/components/dashboard.tsx:475-484 | The reduce holds a list exactly for the statuses that occur. Each list is that status's group, in order. |
| Board.StatusCounts | src/components/dashboard.tsx:486-492 | The reduce holds a count exactly for the statuses that occur, and each count is the size of the group. |
| Board.TabsPartition | src/components/dashboard.tsx:575-577 | The six tab counts add up to the number of candidates: every candidate is in exactly one tab. |
| Board.SummaryAddsUp | src/components/dashboard.tsx:500-505 | The total card equals hired plus in process plus rejected. In process counts the four other statuses. |
| Board.TabCountIsCount | src/components/dashboard.tsx:575-577 | The badge of each tab, the group's length or 0, is the number of candidates currently in that status. |
| Board.RouteSelection | src/components/dashboard.tsx:689-695 | Picking Entrevista opens the scheduling form, and nothing else does. Any other status asks for notes for that candidate and status. |
| Lifecycle.RouteOutcome | src/components/dashboard.tsx:689-695 | Whichever path the picked status opens, the entry its handler appends makes that status the current one. The current entry links to the new interview on the scheduling path and to nothing on the notes path. |
| Agenda.ToEvent | studio/src/components/agenda-page.tsx:59-64 | An event starts at the interview's instant and lasts one hour. It carries the interview, and its title is the start time as HH:mm, " - " and the candidate's name. |
| Agenda.ToEvents | studio/src/components/agenda-page.tsx:59 | One event per listed interview, in listing order. |
| Agenda.ListingExists | studio/src/components/agenda-page.tsx:56-58 | Every state of the collection has a listing in ascending date order holding each interview. |
| Agenda.EventsOfListing | studio/src/components/agenda-page.tsx:56-64 | The calendar has one event per stored interview, in ascending start order. Each lasts one hour and carries a stored interview. |
| Metrics.PairsBelowSound | src/components/hiring-metrics-chart.tsx:37-54 | Every sample comes from a consecutive pair whose second date is strictly later, and is positive. |
| Metrics.PairsBelowComplete | src/components/hiring-metrics-chart.tsx:37-54 | Every consecutive pair whose second date is strictly later gives its sample. |
| Metrics.PairSamples | src/components/hiring-metrics-chart.tsx:37 | A history of at most one entry gives no sample. Otherwise it gives at most one sample per adjacent pair. |
| Metrics.PairSamplesPositive | src/components/hiring-metrics-chart.tsx:42-47 | Every duration pushed is positive. |
| Metrics.SamplesBounded | src/components/hiring-metrics-chart.tsx:32-56 | The candidates give at most one sample per adjacent pair of their histories. |
| Metrics.SamplesPositive | src/components/hiring-metrics-chart.tsx:32-56 | Every duration gathered over all candidates is positive. |
| Metrics.BucketizeMeaning | src/components/hiring-metrics-chart.tsx:49-52 | The record has a key exactly for the labels that occur, its keys are distinct, and each key holds its label's durations in order. |
| Metrics.LabelMsPositive | src/components/hiring-metrics-chart.tsx:47-52 | A label's durations are all positive when every sample is. |
| Metrics.Averages | src/components/hiring-metrics-chart.tsx:58-66 | There is one row per key, in key order, each holding the mean of that key's durations in days. |
| Metrics.AveragesMeaning | src/components/hiring-metrics-chart.tsx:58-66 | The rows have distinct stages, exactly the labels the samples carry. Each holds its label's positive mean. |
| Metrics.MeanPositive | src/components/hiring-metrics-chart.tsx:60-62 | A label's mean is positive. |
| Metrics.SortedRowsMeaning | src/components/hiring-metrics-chart.tsx:67 | Sorting the rows keeps exactly the same rows. |
| Metrics.AddSample | src/components/hiring-metrics-chart.tsx:49-52 | Creating the label's list if absent and then pushing is one Push of the sample. |
| Metrics.LookAtPair | src/components/hiring-metrics-chart.tsx:38-54 | One iteration pushes the pair's duration under its label exactly when the second date is strictly later. |
| Metrics.PushBelowPushesPairs | src/components/hiring-metrics-chart.tsx:37-55 | Looking at the pairs one index at a time pushes exactly the pairs' samples, in order. |
| Metrics.PushPairs | src/components/hiring-metrics-chart.tsx:37-55 | The index loop pushes exactly the samples of the history's consecutive pairs, in order. |
| Metrics.StageDurations | src/components/hiring-metrics-chart.tsx:29-70 | The useMemo body computes the chart rows of the candidates. |
| Metrics.ChartMeaning | src/components/hiring-metrics-chart.tsx:29-70 | The chart is sorted by days and has exactly one row per stage transition seen. Each row holds that transition's positive mean duration in days. |

## Left out

- Firestore, Storage and network I/O are not executed. Every answer is a parameter. Listener refreshes, toasts and local React state are left out.
- Concurrency is left out. Each handler reads and commits atomically. In the app, a stale copy of a candidate's history could be written back between the read and the commit.
- Lifecycle.Coordinator.ScheduleInterview and Lifecycle.Coordinator.UpdateCandidate report a missing candidate as NotFound before the commit. The app lets the commit fail on the update of the missing document instead. Both change nothing. Lifecycle.Coordinator.ChangeStatus's NotFound stands for the app's silent return when the loaded list lacks the candidate. Lifecycle.Coordinator.CancelInterview reads the candidate and fails before committing, as the app does.
- Lifecycle.Coordinator.ChangeStatus reads the candidate from the store. The app reads it from a list loaded when the page was fetched.
- Firestore's refusal of fields set to `undefined` is not modelled. Optional fields are `Option` values.
- Metrics.Averages: `toFixed(1)` rounding and floating-point division are not modelled. Means are exact reals.
- Sorting.SortBy: stability is documented but not proved. Only order and permutation are proved. With ties, the order among sorted elements is unconstrained by the proofs.
- The listing's order among interviews sharing a date is not modelled, because `orderBy` does not fix it.
- Agenda.ListingOf describes the interviews query's answer as a predicate, because the store's own listing order is not observable.
- Time zones and daylight saving time are left out. `new Date("1900-01-01")` is taken as the local midnight of that day, although JavaScript parses it as UTC.
- ISO date strings are not modelled: instants are integer milliseconds.
- The locale date text (`dd/MM/yyyy`) is a parameter of the note builders.
- Strings.LowerChar covers only A-Z and Latin-1 capitals, not the whole Unicode lower-case mapping.
- Lengths count code points, not UTF-16 units.
- The e-mail rule of the candidate form is zod's own pattern. The model takes its verdict as a parameter.
- Uploaded files left behind when a later step fails are not tracked.
- The UI, the AI flow-analysis page, the settings page and the timeline component are not part of this model.

## Findings

| source | as written | input that shows it | evidently intended | confidence | as-written member | corrected member |
|---|---|---|---|---|---|---|
| studio/src/components/interview-form.tsx:156 | `date < new Date()` compares the picked day's midnight with the current instant, so today is disabled | the current instant is today at 10:00, and today's midnight is before it, so today is refused | only days before today are disabled, so that an interview can be scheduled for later today | not executed | InterviewForm.TodayRefusedAsWritten | InterviewForm.DayDisabledMeansPast |
