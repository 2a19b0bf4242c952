/** The candidate form (studio/src/components/candidate-form.tsx): the field
    rules of its schema, the duplicate-CPF rule, the CPF input mask and the
    documents it hands to the dashboard on submit. */
module CandidateForm {
  import opened Types
  import opened Strings

  /** 5 MB. */
  const MaxFileSize: int := 5 * 1024 * 1024

  const AcceptedTypes: seq<string> := ["image/jpeg", "image/png", "application/pdf"]

  /** A file picked in the browser: its name, byte size and MIME type. */
  datatype FileInfo = FileInfo(name: string, size: int, mime: string)

  /** One row of the form's document list. */
  datatype DocumentRow = DocumentRow(docType: DocType, file: Option<FileInfo>, fileName: Option<string>, fileUrl: Option<string>)

  /** The values the form holds when it is submitted. */
  datatype CandidateValues = CandidateValues(
    name: string,
    cpf: string,
    email: string,
    phone: string,
    jobPosition: string,
    description: Option<string>,
    documents: seq<DocumentRow>)

  /** A document row passed on to the dashboard, which uploads its file. */
  datatype SubmittedDocument = SubmittedDocument(docType: DocType, file: FileInfo, fileName: string, fileUrl: string)

  // ----- The CPF format and the input mask -----

  /** `/^\d{3}\.\d{3}\.\d{3}-\d{2}$/`. */
  predicate IsCpfFormat(s: string) {
    && |s| == 14
    && AllDigits(s[0..3]) && s[3] == '.'
    && AllDigits(s[4..7]) && s[7] == '.'
    && AllDigits(s[8..11]) && s[11] == '-'
    && AllDigits(s[12..14])
  }

  /** Four digits start at `p`: where `/(\d{3})(\d)/` can match. */
  predicate QuadAt(s: string, p: int) {
    0 <= p && p + 4 <= |s| && AllDigits(s[p..p + 4])
  }

  /** The leftmost match of `/(\d{3})(\d)/` at or after `from`. */
  function FindQuad(s: string, from: nat): (r: Option<nat>)
    ensures r.Some? ==> from <= r.value && QuadAt(s, r.value)
    ensures r.Some? ==> forall q :: from <= q < r.value ==> !QuadAt(s, q)
    ensures r.None? ==> forall q :: from <= q ==> !QuadAt(s, q)
    decreases |s| - from
  {
    if from + 4 > |s| then None
    else if QuadAt(s, from) then Some(from)
    else FindQuad(s, from + 1)
  }

  /** `s.replace(/(\d{3})(\d)/, "$1.$2")`: a dot after the first three digits
      of the leftmost run of four. */
  function DotAfterTriple(s: string): string {
    match FindQuad(s, 0)
    case None => s
    case Some(p) => s[..p + 3] + "." + s[p + 3..]
  }

  /** Three digits and then one or two more end the string from `p`: where
      `/(\d{3})(\d{1,2})$/` can match. */
  predicate TailAt(s: string, p: int) {
    0 <= p && p + 3 < |s| <= p + 5 && AllDigits(s[p..])
  }

  /** The leftmost match of `/(\d{3})(\d{1,2})$/` at or after `from`. */
  function FindTail(s: string, from: nat): (r: Option<nat>)
    ensures r.Some? ==> from <= r.value && TailAt(s, r.value)
    ensures r.Some? ==> forall q :: from <= q < r.value ==> !TailAt(s, q)
    ensures r.None? ==> forall q :: from <= q ==> !TailAt(s, q)
    decreases |s| - from
  {
    if from + 3 >= |s| then None
    else if TailAt(s, from) then Some(from)
    else FindTail(s, from + 1)
  }

  /** `s.replace(/(\d{3})(\d{1,2})$/, "$1-$2")`. */
  function DashBeforeTail(s: string): string {
    match FindTail(s, 0)
    case None => s
    case Some(p) => s[..p + 3] + "-" + s[p + 3..]
  }

  /** The three replacements that follow the removal of non-digits. */
  function MaskDigits(d: string): string {
    DashBeforeTail(DotAfterTriple(DotAfterTriple(d)))
  }

  /** handleCpfChange: the four replacements applied to the typed value in turn. */
  function MaskCpf(typed: string): string {
    MaskDigits(Digits(typed))
  }

  /** What the mask makes of a string of `n` digits, case by case. */
  function MaskOfDigits(d: string): string {
    var n := |d|;
    if n <= 3 then d
    else if n <= 6 then d[..3] + "." + d[3..]
    else if n <= 9 then d[..3] + "." + d[3..6] + "." + d[6..]
    else if n == 10 then d[..3] + "." + d[3..6] + "." + d[6..9] + "-" + d[9..]
    else d[..3] + "." + d[3..6] + "." + d[6..n - 2] + "-" + d[n - 2..]
  }

  /** A slice that covers a non-digit is not all digits. */
  lemma NotAllDigits(s: string, p: int, q: int, i: int)
    requires 0 <= p <= i < q <= |s| && !IsDigit(s[i])
    ensures !AllDigits(s[p..q])
  {
    assert s[p..q][i - p] == s[i];
  }

  lemma AllDigitsSlice(s: string, p: int, q: int)
    requires AllDigits(s) && 0 <= p <= q <= |s|
    ensures AllDigits(s[p..q])
  {
    assert forall i :: 0 <= i < q - p ==> s[p..q][i] == s[p + i];
  }

  /** The first two replacements: dots after the third and the sixth digit. */
  lemma DotsOfDigits(d: string)
    requires AllDigits(d)
    ensures |d| < 4 ==> DotAfterTriple(DotAfterTriple(d)) == d
    ensures 4 <= |d| < 7 ==> DotAfterTriple(DotAfterTriple(d)) == d[..3] + "." + d[3..]
    ensures 7 <= |d| ==> DotAfterTriple(DotAfterTriple(d)) == d[..3] + "." + d[3..6] + "." + d[6..]
  {
    var n := |d|;
    if n < 4 {
      assert forall q :: !QuadAt(d, q);
    } else {
      AllDigitsSlice(d, 0, 4);
      assert QuadAt(d, 0);
      assert DotAfterTriple(d) == d[..3] + "." + d[3..];
      var t1 := d[..3] + "." + d[3..];
      assert t1[3] == '.';
      forall q | 0 <= q < 4 && q + 4 <= |t1|
        ensures !QuadAt(t1, q)
      {
        NotAllDigits(t1, q, q + 4, 3);
      }
      if n < 7 {
        assert forall q :: !QuadAt(t1, q);
      } else {
        assert t1[4..8] == d[3..7];
        AllDigitsSlice(d, 3, 7);
        assert QuadAt(t1, 4);
        var r := FindQuad(t1, 0);
        assert r == Some(4);
        assert t1[..7] == d[..3] + "." + d[3..6];
        assert t1[7..] == d[6..];
      }
    }
  }

  /** The tail replacement finds nothing when no four digits end the string. */
  lemma NoTail(t: string, i: int)
    requires 0 <= i < |t| && !IsDigit(t[i]) && |t| - i <= 4
    ensures DashBeforeTail(t) == t
  {
    forall q | TailAt(t, q)
      ensures false
    {
      if q <= i {
        NotAllDigits(t, q, |t|, i);
      }
    }
  }

  lemma MaskShort(d: string)
    requires AllDigits(d) && |d| < 4
    ensures MaskDigits(d) == MaskOfDigits(d)
  {
    DotsOfDigits(d);
    assert forall q :: !TailAt(d, q);
  }

  lemma MaskOneDot(d: string)
    requires AllDigits(d) && 4 <= |d| < 7
    ensures MaskDigits(d) == MaskOfDigits(d)
  {
    DotsOfDigits(d);
    var t2 := d[..3] + "." + d[3..];
    assert t2[3] == '.';
    NoTail(t2, 3);
  }

  lemma MaskTwoDots(d: string)
    requires AllDigits(d) && 7 <= |d| < 10
    ensures MaskDigits(d) == MaskOfDigits(d)
  {
    DotsOfDigits(d);
    var t2 := d[..3] + "." + d[3..6] + "." + d[6..];
    assert t2[7] == '.';
    NoTail(t2, 7);
  }

  lemma MaskTen(d: string)
    requires AllDigits(d) && |d| == 10
    ensures MaskDigits(d) == MaskOfDigits(d)
  {
    DotsOfDigits(d);
    var a := d[..3] + "." + d[3..6] + ".";
    var t2 := a + d[6..];
    assert t2 == d[..3] + "." + d[3..6] + "." + d[6..];
    assert |a| == 8 && t2[7] == '.';
    forall q | TailAt(t2, q) && q < 8
      ensures false
    {
      NotAllDigits(t2, q, |t2|, 7);
    }
    assert t2[8..] == d[6..];
    AllDigitsSlice(d, 6, 10);
    assert TailAt(t2, 8);
    assert FindTail(t2, 0) == Some(8);
    assert t2[..11] == a + d[6..9];
    assert t2[11..] == d[9..];
  }

  lemma MaskLong(d: string)
    requires AllDigits(d) && |d| >= 11
    ensures MaskDigits(d) == MaskOfDigits(d)
  {
    var n := |d|;
    DotsOfDigits(d);
    var a := d[..3] + "." + d[3..6] + ".";
    var t2 := a + d[6..];
    assert t2 == d[..3] + "." + d[3..6] + "." + d[6..];
    assert |a| == 8;
    assert t2[n - 3..] == d[n - 5..];
    AllDigitsSlice(d, n - 5, n);
    assert TailAt(t2, n - 3);
    assert FindTail(t2, 0) == Some(n - 3);
    assert t2[..n] == a + d[6..n - 2];
    assert t2[n..] == d[n - 2..];
  }

  /** The mask depends only on the digits typed, as MaskOfDigits describes. */
  lemma MaskCpfCases(typed: string)
    ensures MaskCpf(typed) == MaskOfDigits(Digits(typed))
  {
    var d := Digits(typed);
    if |d| < 4 {
      MaskShort(d);
    } else if |d| < 7 {
      MaskOneDot(d);
    } else if |d| < 10 {
      MaskTwoDots(d);
    } else if |d| == 10 {
      MaskTen(d);
    } else {
      MaskLong(d);
    }
  }

  /** Digits of two strings joined by a non-digit. */
  lemma DigitsAround(a: string, sep: char, b: string)
    requires !IsDigit(sep)
    ensures Digits(a + [sep] + b) == Digits(a) + Digits(b)
  {
    DigitsConcat(a, [sep]);
    DigitsConcat(a + [sep], b);
    assert Digits([sep]) == [] by {
      assert [sep][1..] == [];
    }
    assert Digits(a) + [] == Digits(a);
  }

  /** Digits of three digit runs joined by two non-digits. */
  lemma DigitsOfThree(x: string, c1: char, y: string, c2: char, z: string)
    requires AllDigits(x) && AllDigits(y) && AllDigits(z) && !IsDigit(c1) && !IsDigit(c2)
    ensures Digits(x + [c1] + y + [c2] + z) == x + y + z
  {
    DigitsAround(x, c1, y);
    DigitsAround(x + [c1] + y, c2, z);
  }

  /** Cutting a string in three and four pieces and gluing them back. */
  lemma RejoinThree(d: string, i: int, j: int)
    requires 0 <= i <= j <= |d|
    ensures d[..i] + d[i..j] + d[j..] == d
  {
  }

  lemma RejoinFour(d: string, i: int, j: int, m: int)
    requires 0 <= i <= j <= m <= |d|
    ensures d[..i] + d[i..j] + d[j..m] + d[m..] == d
  {
    RejoinThree(d, i, j);
    assert d[j..] == d[j..m] + d[m..];
  }

  /** Digits of the pieces the mask glues together. */
  lemma DigitsOfMasked(d: string)
    requires AllDigits(d)
    ensures Digits(MaskOfDigits(d)) == d
  {
    var n := |d|;
    if n <= 3 {
    } else if n <= 6 {
      AllDigitsSlice(d, 0, 3);
      AllDigitsSlice(d, 3, n);
      DigitsAround(d[..3], '.', d[3..]);
      assert d[..3] + d[3..] == d;
    } else if n <= 9 {
      DigitsOfMaskedTwoDots(d);
    } else {
      DigitsOfMaskedDash(d);
    }
  }

  lemma DigitsOfMaskedTwoDots(d: string)
    requires AllDigits(d) && 6 < |d| <= 9
    ensures Digits(MaskOfDigits(d)) == d
  {
    AllDigitsSlice(d, 0, 3);
    AllDigitsSlice(d, 3, 6);
    AllDigitsSlice(d, 6, |d|);
    DigitsOfThree(d[..3], '.', d[3..6], '.', d[6..]);
    RejoinThree(d, 3, 6);
  }

  lemma DigitsOfMaskedDash(d: string)
    requires AllDigits(d) && |d| >= 10
    ensures Digits(MaskOfDigits(d)) == d
  {
    var n := |d|;
    var m := if n == 10 then 9 else n - 2;
    AllDigitsSlice(d, 0, 3);
    AllDigitsSlice(d, 3, 6);
    AllDigitsSlice(d, 6, m);
    AllDigitsSlice(d, m, n);
    DigitsOfFour(d[..3], d[3..6], d[6..m], d[m..]);
    assert MaskOfDigits(d) == d[..3] + "." + d[3..6] + "." + d[6..m] + "-" + d[m..];
    RejoinFour(d, 3, 6, m);
  }

  /** Digits of four digit runs joined by three non-digits. */
  lemma DigitsOfFour(x: string, y: string, z: string, w: string)
    requires AllDigits(x) && AllDigits(y) && AllDigits(z) && AllDigits(w)
    ensures Digits(x + "." + y + "." + z + "-" + w) == x + y + z + w
  {
    DigitsOfThree(x, '.', y, '.', z);
    DigitsAround(x + "." + y + "." + z, '-', w);
  }

  /** The mask keeps exactly the digits that were typed. */
  lemma MaskKeepsDigits(typed: string)
    ensures Digits(MaskCpf(typed)) == Digits(typed)
  {
    MaskCpfCases(typed);
    DigitsOfMasked(Digits(typed));
  }

  /** Masking a masked value changes nothing. */
  lemma MaskIdempotent(typed: string)
    ensures MaskCpf(MaskCpf(typed)) == MaskCpf(typed)
  {
    MaskCpfCases(typed);
    MaskCpfCases(MaskCpf(typed));
    MaskKeepsDigits(typed);
  }

  /** The length of the masked value. */
  lemma MaskedLength(d: string)
    ensures |d| <= 3 ==> |MaskOfDigits(d)| == |d|
    ensures 4 <= |d| <= 6 ==> |MaskOfDigits(d)| == |d| + 1
    ensures 7 <= |d| <= 9 ==> |MaskOfDigits(d)| == |d| + 2
    ensures 10 <= |d| ==> |MaskOfDigits(d)| == |d| + 3
  {
  }

  /** Eleven digits are masked into the CPF layout. */
  lemma ElevenDigitsFormat(d: string)
    requires AllDigits(d) && |d| == 11
    ensures IsCpfFormat(MaskOfDigits(d))
  {
    var s := MaskOfDigits(d);
    assert s == d[..3] + "." + d[3..6] + "." + d[6..9] + "-" + d[9..];
    assert s[0..3] == d[0..3] && s[4..7] == d[3..6] && s[8..11] == d[6..9] && s[12..14] == d[9..11];
    AllDigitsSlice(d, 0, 3);
    AllDigitsSlice(d, 3, 6);
    AllDigitsSlice(d, 6, 9);
    AllDigitsSlice(d, 9, 11);
  }

  /** The masked value is a well-formed CPF exactly when eleven digits were typed. */
  lemma MaskFormatsCpf(typed: string)
    ensures IsCpfFormat(MaskCpf(typed)) <==> |Digits(typed)| == 11
  {
    MaskCpfCases(typed);
    var d := Digits(typed);
    MaskedLength(d);
    if |d| == 11 {
      ElevenDigitsFormat(d);
    }
  }

  /** A formatted CPF is its four digit groups and separators. */
  lemma CpfPieces(s: string)
    requires IsCpfFormat(s)
    ensures s == s[0..3] + "." + s[4..7] + "." + s[8..11] + "-" + s[12..14]
  {
  }

  /** Eleven digits in groups of 3, 3, 3 and 2 mask to the formatted CPF. */
  lemma MaskOfEleven(a: string, b: string, c: string, e: string)
    requires |a| == 3 && |b| == 3 && |c| == 3 && |e| == 2
    ensures MaskOfDigits(a + b + c + e) == a + "." + b + "." + c + "-" + e
  {
    var d := a + b + c + e;
    assert d[..3] == a && d[3..6] == b && d[6..9] == c && d[9..] == e;
  }

  /** A well-formed CPF typed or pasted whole comes out of the mask unchanged. */
  lemma MaskKeepsFormattedCpf(s: string)
    requires IsCpfFormat(s)
    ensures MaskCpf(s) == s
  {
    var a, b, c, e := s[0..3], s[4..7], s[8..11], s[12..14];
    CpfPieces(s);
    DigitsOfFour(a, b, c, e);
    MaskCpfCases(s);
    MaskOfEleven(a, b, c, e);
  }

  // ----- Field rules -----

  /** fileSchema: no file, or one of at most 5 MB and of an accepted type. */
  predicate FileAccepted(f: Option<FileInfo>) {
    f.None? || (f.value.size <= MaxFileSize && f.value.mime in AcceptedTypes)
  }

  /** formSchema. The e-mail rule is zod's own pattern, given as `emailValid`. */
  predicate SchemaAccepts(v: CandidateValues, emailValid: bool) {
    && |v.name| >= 2
    && IsCpfFormat(v.cpf)
    && emailValid
    && |v.phone| >= 10
    && forall i :: 0 <= i < |v.documents| ==> FileAccepted(v.documents[i].file)
  }

  /** dynamicSchema's refinement: a CPF already registered is refused only when
      a new candidate is created; an edit (initialData given) always passes. */
  predicate CpfNotDuplicate(cpf: string, existingCpfs: seq<string>, editing: bool) {
    editing || cpf !in existingCpfs
  }

  predicate FormAccepts(v: CandidateValues, existingCpfs: seq<string>, editing: bool, emailValid: bool) {
    SchemaAccepts(v, emailValid) && CpfNotDuplicate(v.cpf, existingCpfs, editing)
  }

  /** Creating a candidate with an already registered CPF is refused, while an
      edit passes whatever the registered CPFs are. */
  lemma DuplicateOnlyOnCreate(v: CandidateValues, existingCpfs: seq<string>, emailValid: bool)
    requires SchemaAccepts(v, emailValid)
    ensures FormAccepts(v, existingCpfs, true, emailValid)
    ensures FormAccepts(v, existingCpfs, false, emailValid) <==> v.cpf !in existingCpfs
  {
  }

  // ----- Submission -----

  function Submitted(row: DocumentRow): SubmittedDocument
    requires row.file.Some?
  {
    SubmittedDocument(row.docType, row.file.value, row.file.value.name, "")
  }

  /** handleInternalSubmit: the rows that carry a file, in order, each named
      after its file and with an empty URL, to be filled in after upload. */
  function SubmittedDocuments(rows: seq<DocumentRow>): (r: seq<SubmittedDocument>)
    ensures |r| <= |rows|
    ensures forall i :: 0 <= i < |r| ==> r[i].fileName == r[i].file.name && r[i].fileUrl == ""
    ensures forall x :: x in r <==> exists i :: 0 <= i < |rows| && rows[i].file.Some? && x == Submitted(rows[i])
  {
    if rows == [] then []
    else
      var front := SubmittedDocuments(rows[..|rows| - 1]);
      var last := rows[|rows| - 1];
      assert forall i :: 0 <= i < |rows| - 1 ==> rows[..|rows| - 1][i] == rows[i];
      front + (if last.file.Some? then [Submitted(last)] else [])
  }

  /** One row hands on its document exactly when it carries a file. */
  lemma SubmittedDocumentsOfRow(row: DocumentRow)
    ensures SubmittedDocuments([row]) == (if row.file.Some? then [Submitted(row)] else [])
  {
    assert [row][..0] == [];
  }

  /** The rows are handed on in order, each as often as it occurs: the
      documents of two runs of rows are those of each run, one after the other. */
  lemma {:induction false} SubmittedDocumentsConcat(a: seq<DocumentRow>, b: seq<DocumentRow>)
    ensures SubmittedDocuments(a + b) == SubmittedDocuments(a) + SubmittedDocuments(b)
  {
    if b == [] {
      assert a + b == a;
    } else {
      var b' := b[..|b| - 1];
      assert (a + b)[..|a + b| - 1] == a + b';
      assert (a + b)[|a + b| - 1] == b[|b| - 1];
      SubmittedDocumentsConcat(a, b');
    }
  }

  /** A form the schema accepts hands on only files of at most 5 MB and of
      type JPEG, PNG or PDF. */
  lemma SubmittedFilesAccepted(v: CandidateValues, emailValid: bool)
    requires SchemaAccepts(v, emailValid)
    ensures forall d :: d in SubmittedDocuments(v.documents) ==>
              d.file.size <= 5 * 1024 * 1024 && d.file.mime in ["image/jpeg", "image/png", "application/pdf"]
  {
    forall d | d in SubmittedDocuments(v.documents)
      ensures d.file.size <= MaxFileSize && d.file.mime in AcceptedTypes
    {
      var i :| 0 <= i < |v.documents| && v.documents[i].file.Some? && d == Submitted(v.documents[i]);
      assert FileAccepted(v.documents[i].file);
    }
  }
}
