/** The explicit row locks a transaction takes, and their one global order. */
module Locks {
  import opened Texts
  import opened TrustRegistry

  datatype Lock =
    | TargetRow(target: RowId)
    | CredentialRow(credential: RowId)
    | HostPointer(target: RowId)
    | PolicyPointer(target: RowId)
    | SubjectRow(subject: Subject)

  function Rank(l: Lock): nat {
    match l
    case TargetRow(_) => 0
    case CredentialRow(_) => 1
    case HostPointer(_) => 2
    case PolicyPointer(_) => 3
    case SubjectRow(_) => 4
  }

  function SubjectKey(s: Subject): seq<Text> { [s.domain, s.name] }

  /** Target, credential, host pointer, policy pointer, then subjects by domain and name. */
  predicate Before(a: Lock, b: Lock) {
    || Rank(a) < Rank(b)
    || (a.SubjectRow? && b.SubjectRow? && LessKey(SubjectKey(a.subject), SubjectKey(b.subject)))
  }

  /** The subjects without repetition, first occurrence kept. */
  function Dedupe(subjects: seq<Subject>): (r: seq<Subject>)
    ensures forall s :: s in r <==> s in subjects
    ensures forall i, j :: 0 <= i < j < |r| ==> r[i] != r[j]
  {
    if subjects == [] then []
    else
      var rest := Dedupe(subjects[..|subjects| - 1]);
      var last := subjects[|subjects| - 1];
      assert subjects == subjects[..|subjects| - 1] + [last];
      if last in rest then rest else rest + [last]
  }

  /** The subjects in canonical order, each once. */
  function SortedSubjects(subjects: seq<Subject>): seq<Subject> {
    Sort(SubjectKey, Dedupe(subjects))
  }

  function SubjectRows(subjects: seq<Subject>): seq<Lock> {
    seq(|subjects|, i requires 0 <= i < |subjects| => SubjectRow(subjects[i]))
  }

  lemma SortedSubjectsCorrect(subjects: seq<Subject>)
    ensures Increasing(SubjectKey, SortedSubjects(subjects))
    ensures forall s :: s in SortedSubjects(subjects) <==> s in subjects
  {
    var d := Dedupe(subjects);
    forall i, j | 0 <= i < j < |d|
      ensures SubjectKey(d[i]) != SubjectKey(d[j])
    {
      assert SubjectKey(d[i])[0] == d[i].domain && SubjectKey(d[i])[1] == d[i].name;
      assert SubjectKey(d[j])[0] == d[j].domain && SubjectKey(d[j])[1] == d[j].name;
    }
    SortCorrect(SubjectKey, d);
  }

  /** The order in which the subjects were listed, and how often, does not matter. */
  lemma SortedSubjectsCanonical(a: seq<Subject>, b: seq<Subject>)
    requires forall s :: s in a <==> s in b
    ensures SortedSubjects(a) == SortedSubjects(b)
  {
    SortedSubjectsCorrect(a);
    SortedSubjectsCorrect(b);
    IncreasingUnique(SubjectKey, SortedSubjects(a), SortedSubjects(b));
  }
}
