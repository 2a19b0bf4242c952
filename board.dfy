/** The dashboard's derived views (src/components/dashboard.tsx): the search
    filter, the tabs that group candidates by current status, the per-status
    counts, the summary cards, and where a status picked in the detail view
    leads. */
module Board {
  import opened Types
  import opened Strings
  import opened History

  /** getLatestStatus can be applied to every candidate. */
  predicate HasHistories(cs: seq<Candidate>) {
    forall i :: 0 <= i < |cs| ==> |cs[i].statusHistory| > 0
  }

  /** The filter's test: the name or the job position contains the term
      ignoring case, or the CPF contains it as typed. An empty job position
      never matches. */
  predicate Matches(c: Candidate, term: string) {
    || Contains(Lower(c.name), Lower(term))
    || Contains(c.cpf, term)
    || (c.jobPosition != "" && Contains(Lower(c.jobPosition), Lower(term)))
  }

  /** filteredCandidates: every candidate for an empty term, otherwise the
      matching ones in their order, each as often as it occurs. */
  function FilterCandidates(cs: seq<Candidate>, term: string): (r: seq<Candidate>)
    ensures term == "" ==> r == cs
    ensures term != "" ==> forall c :: multiset(r)[c] == if Matches(c, term) then multiset(cs)[c] else 0
    ensures term != "" ==> forall c :: c in r <==> c in cs && Matches(c, term)
    ensures |r| <= |cs|
    decreases |cs|
  {
    if term == "" || cs == [] then cs
    else
      var front := cs[..|cs| - 1];
      var last := cs[|cs| - 1];
      assert cs == front + [last];
      FilterCandidates(front, term) + (if Matches(last, term) then [last] else [])
  }

  /** The candidates whose current status is `s`, in order. */
  function Group(cs: seq<Candidate>, s: Status): (g: seq<Candidate>)
    requires HasHistories(cs)
    ensures |g| <= |cs|
    ensures forall c :: c in g <==> c in cs && CurrentStatus(c.statusHistory) == s
  {
    if cs == [] then []
    else
      var front := cs[..|cs| - 1];
      var last := cs[|cs| - 1];
      assert cs == front + [last];
      Group(front, s) + (if CurrentStatus(last.statusHistory) == s then [last] else [])
  }

  /** The number of candidates whose current status is `s`. */
  function Count(cs: seq<Candidate>, s: Status): nat
    requires HasHistories(cs)
  {
    |Group(cs, s)|
  }

  /** Appending one candidate puts it at the end of its own status's group and
      leaves the other groups as they were. */
  lemma GroupAppend(cs: seq<Candidate>, c: Candidate, s: Status)
    requires HasHistories(cs) && |c.statusHistory| > 0
    ensures HasHistories(cs + [c])
    ensures Group(cs + [c], s) == Group(cs, s) + (if CurrentStatus(c.statusHistory) == s then [c] else [])
  {
    assert (cs + [c])[..|cs|] == cs;
  }

  /** Appending one candidate adds one to the count of its current status. */
  lemma CountAppend(cs: seq<Candidate>, c: Candidate, s: Status)
    requires HasHistories(cs) && |c.statusHistory| > 0
    ensures HasHistories(cs + [c])
    ensures Count(cs + [c], s) == Count(cs, s) + (if CurrentStatus(c.statusHistory) == s then 1 else 0)
  {
    GroupAppend(cs, c, s);
  }

  /** The six tab counts added up. */
  function TabTotal(cs: seq<Candidate>): nat
    requires HasHistories(cs)
  {
    Count(cs, EmTriagem) + Count(cs, Entrevista) + Count(cs, TesteTecnico)
    + Count(cs, Oferta) + Count(cs, Contratado) + Count(cs, Rejeitado)
  }

  /** Every candidate lands in exactly one tab: the six tab counts add up to
      the number of candidates. */
  lemma {:induction false} TabsPartition(cs: seq<Candidate>)
    requires HasHistories(cs)
    ensures TabTotal(cs) == |cs|
    decreases |cs|
  {
    if cs != [] {
      var front := cs[..|cs| - 1];
      var last := cs[|cs| - 1];
      assert cs == front + [last];
      TabsPartition(front);
      CountAppend(front, last, EmTriagem);
      CountAppend(front, last, Entrevista);
      CountAppend(front, last, TesteTecnico);
      CountAppend(front, last, Oferta);
      CountAppend(front, last, Contratado);
      CountAppend(front, last, Rejeitado);
    }
  }

  /** `groups` holds, for every status that occurs in `cs`, its group, and
      nothing for the others. */
  predicate GroupsOf(cs: seq<Candidate>, groups: map<Status, seq<Candidate>>) {
    && HasHistories(cs)
    && (forall s :: s in groups <==> Count(cs, s) > 0)
    && (forall s :: s in groups ==> groups[s] == Group(cs, s))
  }

  /** One step of the reduce: pushing a candidate onto its status's list (made
      empty first if absent) gives the groups of the longer sequence. */
  lemma GroupsGrow(cs: seq<Candidate>, c: Candidate, before: map<Status, seq<Candidate>>, after: map<Status, seq<Candidate>>)
    requires GroupsOf(cs, before) && |c.statusHistory| > 0
    requires var s := CurrentStatus(c.statusHistory);
             after == before[s := (if s in before then before[s] else []) + [c]]
    ensures GroupsOf(cs + [c], after)
  {
    var st := CurrentStatus(c.statusHistory);
    GroupAppend(cs, c, st);
    forall s
      ensures s in after <==> Count(cs + [c], s) > 0
      ensures s in after ==> after[s] == Group(cs + [c], s)
    {
      CountAppend(cs, c, s);
      assert s in after <==> s == st || s in before;
      if s == st {
        if st !in before {
          assert Group(cs, st) == [];
        }
      } else {
        GroupAppend(cs, c, s);
      }
    }
  }

  /** groupedCandidates: the reduce that pushes each candidate onto the list of
      its current status, creating a list the first time a status occurs. */
  method GroupCandidates(cs: seq<Candidate>) returns (groups: map<Status, seq<Candidate>>)
    requires HasHistories(cs)
    ensures forall s :: s in groups <==> Count(cs, s) > 0
    ensures forall s :: s in groups ==> groups[s] == Group(cs, s)
  {
    groups := map[];
    var i := 0;
    while i < |cs|
      invariant 0 <= i <= |cs|
      invariant GroupsOf(cs[..i], groups)
    {
      var c := cs[i];
      var status := CurrentStatus(c.statusHistory);
      ghost var before := groups;
      if status !in groups {
        groups := groups[status := []];
      }
      groups := groups[status := groups[status] + [c]];
      assert GroupsOf(cs[..i + 1], groups) by {
        GroupsGrow(cs[..i], c, before, groups);
        assert cs[..i + 1] == cs[..i] + [c];
      }
      i := i + 1;
    }
    assert cs[..|cs|] == cs;
  }

  /** The tab label's `groupedCandidates[status]?.length || 0`. */
  function TabCount(groups: map<Status, seq<Candidate>>, s: Status): nat {
    if s in groups then |groups[s]| else 0
  }

  /** The badge a tab shows, read from the reduce's groups, is the number of
      candidates in that status; with TabsPartition the six badges add up to
      the number of candidates. */
  lemma TabCountIsCount(cs: seq<Candidate>, groups: map<Status, seq<Candidate>>, s: Status)
    requires GroupsOf(cs, groups)
    ensures TabCount(groups, s) == Count(cs, s)
    ensures TabCount(groups, EmTriagem) + TabCount(groups, Entrevista) + TabCount(groups, TesteTecnico)
            + TabCount(groups, Oferta) + TabCount(groups, Contratado) + TabCount(groups, Rejeitado) == |cs|
  {
    TabsPartition(cs);
  }

  /** `counts` holds, for every status that occurs in `cs`, how often it
      occurs, and nothing for the others. */
  predicate CountsOf(cs: seq<Candidate>, counts: map<Status, nat>) {
    && HasHistories(cs)
    && (forall s :: s in counts <==> Count(cs, s) > 0)
    && (forall s :: s in counts ==> counts[s] == Count(cs, s))
  }

  /** One step of the reduce: adding one to a candidate's status count (from
      zero if absent) gives the counts of the longer sequence. */
  lemma CountsGrow(cs: seq<Candidate>, c: Candidate, before: map<Status, nat>, after: map<Status, nat>)
    requires CountsOf(cs, before) && |c.statusHistory| > 0
    requires var s := CurrentStatus(c.statusHistory);
             after == before[s := (if s in before then before[s] else 0) + 1]
    ensures CountsOf(cs + [c], after)
  {
    CountAppend(cs, c, CurrentStatus(c.statusHistory));
    forall s | s != CurrentStatus(c.statusHistory)
      ensures (s in after <==> Count(cs + [c], s) > 0) && (s in after ==> after[s] == Count(cs + [c], s))
    {
      CountAppend(cs, c, s);
    }
  }

  /** statusCounts: the reduce that adds one to the count of each candidate's
      current status, starting a count the first time a status occurs. */
  method StatusCounts(cs: seq<Candidate>) returns (counts: map<Status, nat>)
    requires HasHistories(cs)
    ensures forall s :: s in counts <==> Count(cs, s) > 0
    ensures forall s :: s in counts ==> counts[s] == Count(cs, s)
  {
    counts := map[];
    var i := 0;
    while i < |cs|
      invariant 0 <= i <= |cs|
      invariant CountsOf(cs[..i], counts)
    {
      var c := cs[i];
      var status := CurrentStatus(c.statusHistory);
      ghost var before := counts;
      var current := if status in counts then counts[status] else 0;
      counts := counts[status := current + 1];
      assert CountsOf(cs[..i + 1], counts) by {
        CountsGrow(cs[..i], c, before, counts);
        assert cs[..i + 1] == cs[..i] + [c];
      }
      i := i + 1;
    }
    assert cs[..|cs|] == cs;
  }

  /** `statusCounts[s] || 0`. */
  function CountOr(counts: map<Status, nat>, s: Status): nat {
    if s in counts then counts[s] else 0
  }

  datatype Summary = Summary(total: nat, hired: nat, inProcess: nat, rejected: nat)

  /** summaryItems: the four cards. */
  function SummaryItems(cs: seq<Candidate>, counts: map<Status, nat>): Summary {
    Summary(|cs|, CountOr(counts, Contratado),
            CountOr(counts, EmTriagem) + CountOr(counts, Entrevista) + CountOr(counts, TesteTecnico) + CountOr(counts, Oferta),
            CountOr(counts, Rejeitado))
  }

  /** With the counts statusCounts computes, the cards add up: every candidate
      is hired, rejected or in process, and in exactly one of them. */
  lemma SummaryAddsUp(cs: seq<Candidate>, counts: map<Status, nat>)
    requires HasHistories(cs)
    requires forall s :: s in counts <==> Count(cs, s) > 0
    requires forall s :: s in counts ==> counts[s] == Count(cs, s)
    ensures var sum := SummaryItems(cs, counts);
            sum.total == sum.hired + sum.inProcess + sum.rejected
    ensures SummaryItems(cs, counts).inProcess ==
            Count(cs, EmTriagem) + Count(cs, Entrevista) + Count(cs, TesteTecnico) + Count(cs, Oferta)
  {
    assert forall s :: CountOr(counts, s) == Count(cs, s);
    TabsPartition(cs);
  }

  /** Where picking a status in the detail view leads. */
  datatype Route = OpenScheduling | AskForNotes(candidateId: string, status: Status)

  /** The status select's onValueChange: Entrevista opens the scheduling form,
      any other status the notes dialog for that candidate. */
  function RouteSelection(candidateId: string, value: Status): (r: Route)
    ensures r.OpenScheduling? <==> value == Entrevista
    ensures r.AskForNotes? ==> r == AskForNotes(candidateId, value)
  {
    if value == Entrevista then OpenScheduling else AskForNotes(candidateId, value)
  }
}
