/**
 The registry's commands as they run inside one transaction: tables updated in place, row by row, with the
 locks taken in order.  Each method is proved against the function of the same name in TrustRegistry.
 */
module RegistrySession {
  import opened Prelude
  import opened Texts
  import opened TrustRegistry
  import opened Locks

  ghost function Members(subjects: seq<Subject>): set<Subject> { set s | s in subjects }

  lemma OneMore(subjects: seq<Subject>, i: nat)
    requires i < |subjects|
    ensures Members(subjects[..i + 1]) == Members(subjects[..i]) + {subjects[i]}
    ensures SubjectRows(subjects[..i + 1]) == SubjectRows(subjects[..i]) + [SubjectRow(subjects[i])]
  {
    assert subjects[..i + 1] == subjects[..i] + [subjects[i]];
  }

  lemma SortedMembers(subjects: seq<Subject>)
    ensures Members(SortedSubjects(subjects)) == Members(subjects)
  {
    SortedSubjectsCorrect(subjects);
  }

  class Session {
    var enrolments: map<Fingerprint, Enrolment>
    var closures: map<Fingerprint, Closure>
    var current: map<Subject, Fingerprint>
    var descriptors: map<RowId, Descriptor>
    var lockRows: set<Subject>
    /** The row locks taken so far, in order. */
    var trace: seq<Lock>

    function State(): Tables
      reads this
    {
      Tables(enrolments, closures, current, descriptors, lockRows)
    }

    constructor (t: Tables)
      ensures State() == t && trace == []
    {
      enrolments, closures, current := t.enrolments, t.closures, t.current;
      descriptors, lockRows, trace := t.descriptors, t.lockRows, [];
    }

    /** Creates the permanent lock row once, then locks it. */
    method LockSubject(s: Subject)
      modifies this`lockRows, this`trace
      ensures State() == TrustRegistry.LockSubject(old(State()), s)
      ensures trace == old(trace) + [SubjectRow(s)]
    {
      if s !in lockRows {
        lockRows := lockRows + {s};
      }
      trace := trace + [SubjectRow(s)];
    }

    /** Locks every subject once, in canonical order, whatever order they were listed in. */
    method LockAttestationSubjects(subjects: seq<Subject>)
      modifies this`lockRows, this`trace
      ensures lockRows == old(lockRows) + Members(subjects)
      ensures trace == old(trace) + SubjectRows(SortedSubjects(subjects))
    {
      var ordered := SortedSubjects(subjects);
      for i := 0 to |ordered|
        invariant lockRows == old(lockRows) + Members(ordered[..i])
        invariant trace == old(trace) + SubjectRows(ordered[..i])
      {
        LockSubject(ordered[i]);
        OneMore(ordered, i);
      }
      assert ordered[..|ordered|] == ordered;
      SortedMembers(subjects);
    }

    /** One savepoint: the enrolment and its descriptor, or a conflict and nothing. */
    method InsertEnrolmentRow(f: Fingerprint, row: Enrolment, d: Descriptor) returns (ok: bool)
      modifies this`enrolments, this`descriptors
      ensures ok == InsertAllowed(old(State()), f, row)
      ensures State() == if ok then InsertEnrolment(old(State()), f, row, d) else old(State())
    {
      ok := InsertAllowed(State(), f, row);
      if ok {
        enrolments := enrolments[f := row];
        descriptors := descriptors[row.id := d];
      }
    }

    method InsertPointer(s: Subject, f: Fingerprint) returns (ok: bool)
      modifies this`current
      ensures ok == (s !in old(current))
      ensures current == if ok then old(current)[s := f] else old(current)
    {
      ok := s !in current;
      if ok {
        current := current[s := f];
      }
    }

    method InsertClosure(f: Fingerprint, c: Closure) returns (ok: bool)
      modifies this`closures
      ensures ok == (f !in old(closures))
      ensures closures == if ok then old(closures)[f := c] else old(closures)
    {
      ok := f !in closures;
      if ok {
        closures := closures[f := c];
      }
    }

    /** Compare-and-swap on the current-root row; answers the number of rows moved. */
    method MovePointer(s: Subject, from: Fingerprint, to: Fingerprint) returns (rows: nat)
      modifies this`current
      ensures rows == if s in old(current) && old(current)[s] == from then 1 else 0
      ensures current == if rows == 1 then old(current)[s := to] else old(current)
    {
      if s in current && current[s] == from {
        current := current[s := to];
        return 1;
      }
      return 0;
    }

    /** Deletes the current-root row only while it still names the fingerprint. */
    method DeletePointerNaming(s: Subject, f: Fingerprint)
      modifies this`current
      ensures current == if s in old(current) && old(current)[s] == f then old(current) - {s} else old(current)
    {
      if s in current && current[s] == f {
        current := current - {s};
      }
    }

    method EnrolRoot(digest: KeyDigest, terms: Terms) returns (r: Result<RootView, Refusal>)
      modifies this
      ensures var a := TrustRegistry.EnrolRoot(old(State()), digest, terms);
              && State() == a.tables
              && (r.Success? <==> a.outcome.Success?)
              && (r.Failure? ==> r.error == a.outcome.error)
      ensures r.Success? ==> terms.subject in current && current[terms.subject] in enrolments
      ensures r.Success? ==> r.value == ViewOf(current[terms.subject], enrolments[current[terms.subject]])
      ensures trace <= old(trace) + [SubjectRow(terms.subject)] && old(trace) <= trace
    {
      var fault := DescriptorFault(terms.subject.domain, terms.descriptor, terms.at);
      if fault.Some? {
        return Failure(fault.value);
      }
      LockSubject(terms.subject);
      var key := digest(terms.publicKey);
      if key.None? {
        return Failure(MALFORMED_KEY);
      }
      if !CustodyPointerOk(terms.custodyPointer) {
        return Failure(MALFORMED_CUSTODY_POINTER);
      }
      var row := RowOf(terms, None);
      var inserted := InsertEnrolmentRow(key.value, row, terms.descriptor);
      if !inserted {
        return Failure(ALREADY_ENROLLED);
      }
      var pointed := InsertPointer(terms.subject, key.value);
      if !pointed {
        return Failure(ALREADY_ENROLLED);
      }
      return Success(ViewOf(key.value, row));
    }

    method RotateRoot(digest: KeyDigest, supersedes: Fingerprint, terms: Terms) returns (r: Result<RootView, Refusal>)
      modifies this
      ensures var a := TrustRegistry.RotateRoot(old(State()), digest, supersedes, terms);
              && State() == a.tables
              && (r.Success? <==> a.outcome.Success?)
              && (r.Failure? ==> r.error == a.outcome.error)
      ensures r.Success? ==> terms.subject in current && current[terms.subject] in enrolments
      ensures r.Success? ==> r.value == ViewOf(current[terms.subject], enrolments[current[terms.subject]])
      ensures trace == old(trace) + [SubjectRow(terms.subject)]
    {
      var s := terms.subject;
      LockSubject(s);
      var key := digest(terms.publicKey);
      if key.None? {
        return Failure(MALFORMED_KEY);
      }
      if key.value == supersedes {
        return Failure(SUPERSEDES_MISMATCH);
      }
      var fault := DescriptorFault(s.domain, terms.descriptor, terms.at);
      if fault.Some? {
        return Failure(fault.value);
      }
      if !CustodyPointerOk(terms.custodyPointer) {
        return Failure(MALFORMED_CUSTODY_POINTER);
      }
      if s !in current {
        return Failure(NO_ACTIVE_ROOT_TO_ROTATE);
      }
      if current[s] != supersedes {
        return Failure(SUPERSEDES_MISMATCH);
      }
      if supersedes !in enrolments || enrolments[supersedes].subject != s {
        return Failure(SUPERSEDES_MISMATCH);
      }
      var row := RowOf(terms, Some(supersedes));
      var inserted := InsertEnrolmentRow(key.value, row, terms.descriptor);
      if !inserted {
        return Failure(LOST_ROTATION_RACE);
      }
      var closed := InsertClosure(supersedes, Closure(SUPERSEDED, terms.at, terms.authority, None, Some(key.value)));
      if !closed {
        if closures[supersedes].kind == REVOKED {
          return Failure(FINGERPRINT_REVOKED);
        }
        return Failure(LOST_ROTATION_RACE);
      }
      var rows := MovePointer(s, supersedes, key.value);
      assert rows == 1;
      return Success(ViewOf(key.value, row));
    }

    method RevokeRoot(f: Fingerprint, authority: Text, reason: Option<Text>, at: Instant)
      returns (r: Result<(), Refusal>)
      modifies this
      ensures TrustRegistry.RevokeRoot(old(State()), f, authority, reason, at) == Attempt(State(), r)
      ensures trace == old(trace) + if f in old(enrolments) then [SubjectRow(old(enrolments)[f].subject)] else []
    {
      if f !in enrolments {
        return Failure(UNKNOWN_FINGERPRINT);
      }
      var s := enrolments[f].subject;
      LockSubject(s);
      var closed := InsertClosure(f, Closure(REVOKED, at, authority, reason, None));
      if !closed {
        if closures[f].kind == SUPERSEDED {
          return Failure(FINGERPRINT_SUPERSEDED);
        }
        return Failure(FINGERPRINT_REVOKED);
      }
      DeletePointerNaming(s, f);
      return Success(());
    }

    /** The single open enrolment, by query over the append-only tables. */
    method Derive(s: Subject) returns (r: Option<Fingerprint>)
      ensures r == DeriveCurrent(State(), s)
    {
      var open := OpenFor(State(), s);
      if |open| != 1 {
        return None;
      }
      var f :| f in open;
      SingletonOf(open, f);
      return Some(f);
    }

    method RepairCurrentRoot(s: Subject) returns (r: Result<(), Refusal>)
      modifies this
      ensures TrustRegistry.RepairCurrentRoot(old(State()), s) == Attempt(State(), r)
      ensures trace == old(trace) + [SubjectRow(s)]
    {
      LockSubject(s);
      if CountOpen(State(), s) > 1 {
        return Failure(AMBIGUOUS_CURRENT_ROOT);
      }
      var expected := Derive(s);
      if expected.None? {
        current := current - {s};
        return Success(());
      }
      if s !in current {
        current := current[s := expected.value];
      } else if current[s] != expected.value {
        current := current[s := expected.value];
      } else {
        assert current[s := expected.value] == current;
      }
      return Success(());
    }
  }
}
