/**
 Host associations and admission policies row by row: what each reader and each command answers, and the columns it
 writes, in terms of the tables alone.
 */
module HostAdmissionRows {
  import opened Prelude
  import opened Texts
  import opened TrustRegistry
  import opened HostAdmissionService
  import HostAttesterEnrolment

  // ---------------------------------------------------------------- open rows

  ghost predicate OpenHost(b: Bindings, target: RowId, a: RowId) {
    a in b.associations && b.associations[a].target == target && a !in b.associationClosures
  }

  ghost predicate OneHost(b: Bindings, target: RowId, a: RowId) {
    OpenHost(b, target, a) && forall x :: OpenHost(b, target, x) ==> x == a
  }

  ghost predicate OpenPolicy(b: Bindings, target: RowId, p: RowId) {
    p in b.policies && b.policies[p].target == target && p !in b.policyClosures
  }

  ghost predicate OnePolicy(b: Bindings, target: RowId, p: RowId) {
    OpenPolicy(b, target, p) && forall x :: OpenPolicy(b, target, x) ==> x == p
  }

  /** One to sixty-three lower-case letters, digits and hyphens, no hyphen at either end. */
  ghost predicate HostLabel(h: Text) {
    && 1 <= |h| <= 63 && h[0] != 0x2D && h[|h| - 1] != 0x2D
    && forall i :: 0 <= i < |h| ==> 0x61 <= h[i] <= 0x7A || 0x30 <= h[i] <= 0x39 || h[i] == 0x2D
  }

  lemma HostLabelExact(h: Text)
    ensures HostAttesterEnrolment.HostIdOk(h) <==> HostLabel(h)
  {
    assert forall i :: 0 <= i < |h| ==> h[i] in h;
    if HostLabel(h) {
      forall c | c in h
        ensures 97 <= c <= 122 || 48 <= c <= 57 || c == 45
      {
        var i :| 0 <= i < |h| && h[i] == c;
      }
    }
  }

  // ---------------------------------------------------------------- readers

  /** The current host: the answer, whatever the tables. */
  lemma HostAnswer(b: Bindings, target: RowId)
    ensures CurrentHost(b, target)
            == if forall a :: !OpenHost(b, target, a)
               then Failure(if target in b.currentHost then HOST_DRIFT else HOST_ABSENT)
               else if !exists a :: OneHost(b, target, a) then Failure(HOST_AMBIGUOUS)
               else if target !in b.currentHost || !OneHost(b, target, b.currentHost[target]) then Failure(HOST_DRIFT)
               else if !HostLabel(b.associations[b.currentHost[target]].hostId) then Failure(MALFORMED)
               else Success(HostView(b.currentHost[target], b.associations[b.currentHost[target]]))
  {
    var open := OpenAssociations(b, target);
    HostsOpen(b, target);
    if target in b.currentHost && b.currentHost[target] in b.associations {
      HostLabelExact(b.associations[b.currentHost[target]].hostId);
    }
  }

  lemma OneHostExact(b: Bindings, target: RowId, a: RowId)
    ensures OneHost(b, target, a) <==> |OpenAssociations(b, target)| == 1 && a in OpenAssociations(b, target)
  {
    var open := OpenAssociations(b, target);
    if a in open {
      SingletonOf(open, a);
      if open == {a} {
        forall x | OpenHost(b, target, x)
          ensures x == a
        {
          assert x in open;
        }
      }
      if OneHost(b, target, a) {
        forall x | x in open
          ensures x == a
        {
          assert OpenHost(b, target, x);
        }
        assert open == {a};
      }
    }
  }

  lemma HostsOpen(b: Bindings, target: RowId)
    ensures |OpenAssociations(b, target)| == 0 <==> forall a :: !OpenHost(b, target, a)
    ensures |OpenAssociations(b, target)| == 1 <==> exists a :: OneHost(b, target, a)
    ensures forall a :: OneHost(b, target, a) <==>
              |OpenAssociations(b, target)| == 1 && a in OpenAssociations(b, target)
  {
    var open := OpenAssociations(b, target);
    assert forall a :: a in open <==> OpenHost(b, target, a);
    forall a
      ensures OneHost(b, target, a) <==> |open| == 1 && a in open
    {
      OneHostExact(b, target, a);
    }
    if |open| != 0 {
      var x :| x in open;
    }
  }

  /** The current policy: the answer, whatever the tables. */
  lemma PolicyAnswer(b: Bindings, target: RowId)
    ensures CurrentPolicy(b, target)
            == if forall p :: !OpenPolicy(b, target, p)
               then Failure(if target in b.currentPolicy then POLICY_DRIFT else POLICY_ABSENT)
               else if !exists p :: OnePolicy(b, target, p) then Failure(POLICY_AMBIGUOUS)
               else if target !in b.currentPolicy || !OnePolicy(b, target, b.currentPolicy[target])
               then Failure(POLICY_DRIFT)
               else Success(PolicyView(b.currentPolicy[target], b.policies[b.currentPolicy[target]]))
  {
    PoliciesOpen(b, target);
  }

  lemma OnePolicyExact(b: Bindings, target: RowId, p: RowId)
    ensures OnePolicy(b, target, p) <==> |OpenPolicies(b, target)| == 1 && p in OpenPolicies(b, target)
  {
    var open := OpenPolicies(b, target);
    if p in open {
      SingletonOf(open, p);
      if open == {p} {
        forall x | OpenPolicy(b, target, x)
          ensures x == p
        {
          assert x in open;
        }
      }
      if OnePolicy(b, target, p) {
        forall x | x in open
          ensures x == p
        {
          assert OpenPolicy(b, target, x);
        }
        assert open == {p};
      }
    }
  }

  lemma PoliciesOpen(b: Bindings, target: RowId)
    ensures |OpenPolicies(b, target)| == 0 <==> forall p :: !OpenPolicy(b, target, p)
    ensures |OpenPolicies(b, target)| == 1 <==> exists p :: OnePolicy(b, target, p)
    ensures forall p :: OnePolicy(b, target, p) <==>
              |OpenPolicies(b, target)| == 1 && p in OpenPolicies(b, target)
  {
    var open := OpenPolicies(b, target);
    assert forall p :: p in open <==> OpenPolicy(b, target, p);
    forall p
      ensures OnePolicy(b, target, p) <==> |open| == 1 && p in open
    {
      OnePolicyExact(b, target, p);
    }
    if |open| != 0 {
      var x :| x in open;
    }
  }

  /** The row the current-host pointer names is the one open association of the target, under a well-formed label. */
  ghost predicate HostIs(b: Bindings, target: RowId, a: RowId) {
    && target in b.currentHost && b.currentHost[target] == a && OneHost(b, target, a)
    && HostLabel(b.associations[a].hostId)
  }

  ghost predicate PolicyIs(b: Bindings, target: RowId, p: RowId) {
    target in b.currentPolicy && b.currentPolicy[target] == p && OnePolicy(b, target, p)
  }

  lemma HostIsExact(b: Bindings, target: RowId, a: RowId)
    ensures HostIs(b, target, a) <==>
            a in b.associations && CurrentHost(b, target) == Success(HostView(a, b.associations[a]))
    ensures CurrentHost(b, target).Success? ==>
              HostIs(b, target, CurrentHost(b, target).value.associationId)
              && CurrentHost(b, target).value.row == b.associations[CurrentHost(b, target).value.associationId]
  {
    HostAnswer(b, target);
    if HostIs(b, target, a) {
      assert OpenHost(b, target, a) && OneHost(b, target, a);
    }
  }

  lemma PolicyIsExact(b: Bindings, target: RowId, p: RowId)
    ensures PolicyIs(b, target, p) <==>
            p in b.policies && CurrentPolicy(b, target) == Success(PolicyView(p, b.policies[p]))
    ensures CurrentPolicy(b, target).Success? ==>
              PolicyIs(b, target, CurrentPolicy(b, target).value.policyId)
              && CurrentPolicy(b, target).value.row == b.policies[CurrentPolicy(b, target).value.policyId]
  {
    PolicyAnswer(b, target);
    if PolicyIs(b, target, p) {
      assert OpenPolicy(b, target, p) && OnePolicy(b, target, p);
    }
  }

  // ---------------------------------------------------------------- host commands

  /** bind_target_host: the answer and the rows. */
  lemma BindRows(b: Bindings, target: RowId, hostId: Text, authority: Text, id: RowId, at: Instant)
    ensures Apply(b, BindHost(target, hostId, authority, id, at))
            == if target !in b.targets then Failure(TARGET_NOT_FOUND)
               else if !HostLabel(hostId) then Failure(HOST_ID_MALFORMED)
               else if !Stripped(authority) then Failure(MALFORMED)
               else if target in b.currentHost && exists a :: OneHost(b, target, a) then Failure(HOST_ALREADY_BOUND)
               else if target in b.currentHost || exists a :: OpenHost(b, target, a) then Failure(HOST_DRIFT)
               else if id in b.associations then Failure(ID_CONFLICT)
               else Success(b.(
                 associations := b.associations[id := Association(
                   target := target, hostId := hostId, boundAt := at, authority := authority)],
                 currentHost := b.currentHost[target := id]))
  {
    HostLabelExact(hostId);
    StrippedExact(authority);
    HostsOpen(b, target);
  }

  /** rotate_target_host: the answer and the rows. */
  lemma RotateHostRows(b: Bindings, target: RowId, hostId: Text, authority: Text, id: RowId, at: Instant)
    ensures Apply(b, RotateHost(target, hostId, authority, id, at))
            == if target !in b.targets then Failure(TARGET_NOT_FOUND)
               else if CurrentHost(b, target).Failure? then Failure(CurrentHost(b, target).error)
               else if !Stripped(authority) then Failure(MALFORMED)
               else if !HostLabel(hostId) then Failure(HOST_ID_MALFORMED)
               else if id in b.associations then Failure(ID_CONFLICT)
               else Success(b.(
                 associations := b.associations[id := Association(
                   target := target, hostId := hostId, boundAt := at, authority := authority)],
                 associationClosures := b.associationClosures[b.currentHost[target] := RowClosure(
                   closedAt := at, authority := authority, successor := Some(id))],
                 currentHost := b.currentHost[target := id]))
  {
    HostLabelExact(hostId);
    StrippedExact(authority);
    HostAnswer(b, target);
  }

  /** revoke_target_host: the answer and the rows. */
  lemma RevokeHostRows(b: Bindings, target: RowId, authority: Text, at: Instant)
    ensures Apply(b, RevokeHost(target, authority, at))
            == if target !in b.targets then Failure(TARGET_NOT_FOUND)
               else if CurrentHost(b, target).Failure? then Failure(CurrentHost(b, target).error)
               else if !Stripped(authority) then Failure(MALFORMED)
               else Success(b.(
                 associationClosures := b.associationClosures[b.currentHost[target] := RowClosure(
                   closedAt := at, authority := authority, successor := None)],
                 currentHost := b.currentHost - {target}))
  {
    StrippedExact(authority);
    HostAnswer(b, target);
  }

  // ---------------------------------------------------------------- policy commands

  ghost predicate PolicyTexts(p: PolicyTerms) {
    && Stripped(p.candidateSubject) && Stripped(p.candidateAudience) && Stripped(p.installedAudience)
    && Stripped(p.package) && Stripped(p.authority)
  }

  lemma PolicyTextsExact(p: PolicyTerms)
    ensures PolicyTermsOk(p) <==> PolicyTexts(p)
  {
    StrippedExact(p.candidateSubject);
    StrippedExact(p.candidateAudience);
    StrippedExact(p.installedAudience);
    StrippedExact(p.package);
    StrippedExact(p.authority);
  }

  /** set_target_admission_policy: the answer and the rows. */
  lemma SetPolicyRows(b: Bindings, target: RowId, terms: PolicyTerms, id: RowId, at: Instant)
    ensures Apply(b, SetPolicy(target, terms, id, at))
            == if target !in b.targets then Failure(TARGET_NOT_FOUND)
               else if CurrentHost(b, target).Failure? then Failure(CurrentHost(b, target).error)
               else if target in b.currentPolicy && exists p :: OnePolicy(b, target, p) then Failure(POLICY_ALREADY_SET)
               else if target in b.currentPolicy || exists p :: OpenPolicy(b, target, p) then Failure(POLICY_DRIFT)
               else if !PolicyTexts(terms) then Failure(MALFORMED)
               else if id in b.policies then Failure(ID_CONFLICT)
               else Success(b.(
                 policies := b.policies[id := Policy(
                   target := target, association := b.currentHost[target],
                   candidateSubject := terms.candidateSubject, candidateAudience := terms.candidateAudience,
                   installedAudience := terms.installedAudience, package := terms.package,
                   effectiveAt := at, authority := terms.authority)],
                 currentPolicy := b.currentPolicy[target := id]))
  {
    PolicyTextsExact(terms);
    PoliciesOpen(b, target);
    HostAnswer(b, target);
  }

  /** revise_target_admission_policy: the answer and the rows. */
  lemma RevisePolicyRows(b: Bindings, target: RowId, terms: PolicyTerms, id: RowId, at: Instant)
    ensures Apply(b, RevisePolicy(target, terms, id, at))
            == if target !in b.targets then Failure(TARGET_NOT_FOUND)
               else if CurrentHost(b, target).Failure? then Failure(CurrentHost(b, target).error)
               else if CurrentPolicy(b, target).Failure? then Failure(CurrentPolicy(b, target).error)
               else if !PolicyTexts(terms) then Failure(MALFORMED)
               else if id in b.policies then Failure(ID_CONFLICT)
               else Success(b.(
                 policies := b.policies[id := Policy(
                   target := target, association := b.currentHost[target],
                   candidateSubject := terms.candidateSubject, candidateAudience := terms.candidateAudience,
                   installedAudience := terms.installedAudience, package := terms.package,
                   effectiveAt := at, authority := terms.authority)],
                 policyClosures := b.policyClosures[b.currentPolicy[target] := RowClosure(
                   closedAt := at, authority := terms.authority, successor := Some(id))],
                 currentPolicy := b.currentPolicy[target := id]))
  {
    PolicyTextsExact(terms);
    HostAnswer(b, target);
    PolicyAnswer(b, target);
  }

  /** revoke_target_admission_policy: the answer and the rows. */
  lemma RevokePolicyRows(b: Bindings, target: RowId, authority: Text, at: Instant)
    ensures Apply(b, RevokePolicy(target, authority, at))
            == if target !in b.targets then Failure(TARGET_NOT_FOUND)
               else if CurrentPolicy(b, target).Failure? then Failure(CurrentPolicy(b, target).error)
               else if !Stripped(authority) then Failure(MALFORMED)
               else Success(b.(
                 policyClosures := b.policyClosures[b.currentPolicy[target] := RowClosure(
                   closedAt := at, authority := authority, successor := None)],
                 currentPolicy := b.currentPolicy - {target}))
  {
    StrippedExact(authority);
    PolicyAnswer(b, target);
  }

  // ---------------------------------------------------------------- a command, then the reader

  /** A target without associations is bound, and its current host is then just what was bound. */
  lemma BoundIsRead(b: Bindings, target: RowId, hostId: Text, authority: Text, id: RowId, at: Instant)
    requires target in b.targets && HostLabel(hostId) && Stripped(authority)
    requires target !in b.currentHost && forall a :: !OpenHost(b, target, a)
    requires id !in b.associations && id !in b.associationClosures
    ensures CurrentHost(Applied(b, BindHost(target, hostId, authority, id, at)), target)
         == Success(HostView(id, Association(target := target, hostId := hostId, boundAt := at,
                                             authority := authority)))
  {
    BindRows(b, target, hostId, authority, id, at);
    var b' := Applied(b, BindHost(target, hostId, authority, id, at));
    forall a | OpenHost(b', target, a)
      ensures a == id
    {
      assert a != id ==> OpenHost(b, target, a);
    }
    assert OneHost(b', target, id);
    HostAnswer(b', target);
  }

  /** A bound target without policies is given one, and its current policy is then just what was set, for its current
      association. */
  lemma SetIsRead(b: Bindings, target: RowId, terms: PolicyTerms, a: RowId, id: RowId, at: Instant)
    requires target in b.targets && HostIs(b, target, a) && PolicyTexts(terms)
    requires target !in b.currentPolicy && forall p :: !OpenPolicy(b, target, p)
    requires id !in b.policies && id !in b.policyClosures
    ensures CurrentPolicy(Applied(b, SetPolicy(target, terms, id, at)), target)
         == Success(PolicyView(id, Policy(
              target := target, association := a, candidateSubject := terms.candidateSubject,
              candidateAudience := terms.candidateAudience, installedAudience := terms.installedAudience,
              package := terms.package, effectiveAt := at, authority := terms.authority)))
  {
    HostIsExact(b, target, a);
    SetPolicyRows(b, target, terms, id, at);
    var b' := Applied(b, SetPolicy(target, terms, id, at));
    forall p | OpenPolicy(b', target, p)
      ensures p == id
    {
      assert p != id ==> OpenPolicy(b, target, p);
    }
    assert OnePolicy(b', target, id);
    PolicyAnswer(b', target);
  }
}
