/** The records of the applicant-tracking store (studio/src/lib/types.ts).
    Instants, stored by the application as ISO strings, are integer
    milliseconds here. */
module Types {

  datatype Option<T> = None | Some(value: T)

  /** The six stages of the hiring pipeline; any stage may follow any other. */
  datatype Status = EmTriagem | Entrevista | TesteTecnico | Oferta | Rejeitado | Contratado

  /** Every status, in the order the board shows its tabs. */
  const StatusOrder: seq<Status> := [EmTriagem, Entrevista, TesteTecnico, Oferta, Contratado, Rejeitado]

  /** The string literal that stands for a status in the stored records. */
  function StatusName(s: Status): string {
    match s
    case EmTriagem => "Em Triagem"
    case Entrevista => "Entrevista"
    case TesteTecnico => "Teste Técnico"
    case Oferta => "Oferta"
    case Rejeitado => "Rejeitado"
    case Contratado => "Contratado"
  }

  /** Membership in the union type `Status`: the status a literal stands for. */
  function ParseStatus(name: string): (r: Option<Status>)
    ensures r.Some? ==> StatusName(r.value) == name
    ensures r.None? ==> forall s :: StatusName(s) != name
  {
    if name == "Em Triagem" then Some(EmTriagem)
    else if name == "Entrevista" then Some(Entrevista)
    else if name == "Teste Técnico" then Some(TesteTecnico)
    else if name == "Oferta" then Some(Oferta)
    else if name == "Rejeitado" then Some(Rejeitado)
    else if name == "Contratado" then Some(Contratado)
    else None
  }

  /** The union is closed and its six literals are distinct: every status is
      listed exactly once and its literal reads back as itself. */
  lemma StatusesClosed(s: Status)
    ensures s in StatusOrder
    ensures ParseStatus(StatusName(s)) == Some(s)
    ensures |StatusOrder| == 6
    ensures forall i, j :: 0 <= i < j < |StatusOrder| ==> StatusOrder[i] != StatusOrder[j]
  {
  }

  /** `notes`, `interviewId` and `actor` may be absent; status and date never are. */
  datatype StatusEntry = StatusEntry(
    status: Status,
    date: int,
    notes: Option<string>,
    interviewId: Option<string>,
    actor: Option<string>)

  datatype DocType = CNH | CTPS | CURRICULO | OUTROS

  /** A stored document: its kind, the uploaded file's name and its download URL. */
  datatype Document = Document(docType: DocType, fileName: string, fileUrl: string)

  datatype JobPosition = JobPosition(id: string, name: string)

  datatype Interviewer = Interviewer(id: string, name: string)

  datatype InterviewType = Online | Presencial

  function InterviewTypeName(t: InterviewType): string {
    match t
    case Online => "Online"
    case Presencial => "Presencial"
  }

  /** An interview names its candidate only by id, with the name copied for display. */
  datatype Interview = Interview(
    id: string,
    candidateId: string,
    candidateName: string,
    interviewerId: string,
    interviewerName: string,
    kind: InterviewType,
    date: int,
    notes: Option<string>,
    actor: Option<string>)

  /** A candidate record. `documents` is optional in the stored record; every
      reader treats an absent list as empty, so it is a sequence here. */
  datatype Candidate = Candidate(
    id: string,
    name: string,
    cpf: string,
    email: string,
    phone: string,
    jobPosition: string,
    description: Option<string>,
    statusHistory: seq<StatusEntry>,
    documents: seq<Document>,
    lastUpdate: int,
    createdBy: Option<string>,
    lastUpdatedBy: Option<string>)

  /** `user?.email ?? 'Sistema'`: the actor recorded on a history entry. */
  function ActorLabel(user: Option<string>): (a: string)
    ensures user.Some? ==> a == user.value
    ensures user.None? ==> a == "Sistema"
  {
    match user
    case Some(email) => email
    case None => "Sistema"
  }
}
