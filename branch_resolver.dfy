/** What `getBranch` does, as a function of the ref table it starts from:
    the get-or-create of the branch `refs/heads/<branchName>`, derived from
    `refs/heads/<baseBranch>` when it is missing. Both copies of `getBranch`
    (module `Multigitter` and module `Changefile`) are proved to behave
    exactly as `Resolve` says, so every lemma here holds of both. */
module BranchResolver {
  import opened GitRefs

  const HeadsPrefix: string := "refs/heads/"

  const ErrSameBranch: string :=
    "the commit branch does not exist but `-base-branch` is the same as `-commit-branch`"

  const ErrEmptyBase: string :=
    "the `-base-branch` should not be set to an empty string when the branch specified by `-commit-branch` does not exists"

  /** How each of the (at most three) round trips of one `getBranch` call
      fails, if it does: the lookup of the branch, the lookup of the base
      branch, and the creation. */
  datatype Faults = Faults(branchLookup: Option<string>, baseLookup: Option<string>, create: Option<string>)

  /** The result of one call, the table it leaves, and the requests it sent. */
  datatype Outcome = Outcome(result: Result<Reference>, refs: map<RefName, Sha>, calls: seq<Call>)

  /** The full ref name of a branch. */
  function HeadRef(branch: string): (r: RefName)
    ensures |r| == |HeadsPrefix| + |branch|
    ensures r[..|HeadsPrefix|] == HeadsPrefix && r[|HeadsPrefix|..] == branch
  {
    HeadsPrefix + branch
  }

  /** Distinct branch names never share a ref. */
  lemma HeadRefInjective(a: string, b: string)
    ensures HeadRef(a) == HeadRef(b) <==> a == b
  {
  }

  /** The two configuration checks made once the branch was not found, in
      their order: equality with the base first, then the empty base. */
  function Guard(branchName: string, baseBranch: string): (e: Option<Error>)
    ensures e == None <==> branchName != baseBranch && baseBranch != ""
    ensures e.Some? ==> e.value.Misconfigured?
    ensures branchName == baseBranch ==> e == Some(Misconfigured(ErrSameBranch))
    ensures branchName != baseBranch && baseBranch == "" ==> e == Some(Misconfigured(ErrEmptyBase))
  {
    if branchName == baseBranch then Some(Misconfigured(ErrSameBranch))
    else if baseBranch == "" then Some(Misconfigured(ErrEmptyBase))
    else None
  }

  /** One call of `getBranch(branchName, baseBranch)` on the table `refs`. */
  function Resolve(refs: map<RefName, Sha>, branchName: string, baseBranch: string, faults: Faults): (o: Outcome)
    // every call starts by asking for the branch itself
    ensures 1 <= |o.calls| <= 3 && o.calls[0] == GetRefCall(HeadRef(branchName))
    // a returned reference is the branch, as the table now has it
    ensures o.result.Ok? ==>
      o.result.value.ref == HeadRef(branchName) &&
      HeadRef(branchName) in o.refs && o.refs[HeadRef(branchName)] == o.result.value.sha
    // the table is either unchanged or gained exactly the new branch
    ensures o.refs == refs ||
      (o.result.Ok? && HeadRef(branchName) !in refs &&
       o.refs == refs[HeadRef(branchName) := o.result.value.sha])
  {
    var branchCall := GetRefCall(HeadRef(branchName));
    match Lookup(refs, HeadRef(branchName), faults.branchLookup)
    case Ok(found) => Outcome(Ok(found), refs, [branchCall])
    case Err(_) =>
      match Guard(branchName, baseBranch)
      case Some(e) => Outcome(Err(e), refs, [branchCall])
      case None =>
        var baseCall := GetRefCall(HeadRef(baseBranch));
        match Lookup(refs, HeadRef(baseBranch), faults.baseLookup)
        case Err(e) => Outcome(Err(e), refs, [branchCall, baseCall])
        case Ok(baseRef) =>
          var target := Reference(HeadRef(branchName), baseRef.sha);
          var effect := Insert(refs, target, faults.create);
          Outcome(effect.result, effect.refs, [branchCall, baseCall, CreateRefCall(target)])
  }

  /** Fast path: a branch that can be read is returned as the table has it,
      with one request and no change. */
  lemma FoundBranchIsReturned(refs: map<RefName, Sha>, branchName: string, baseBranch: string, faults: Faults)
    requires faults.branchLookup == None && HeadRef(branchName) in refs
    ensures Resolve(refs, branchName, baseBranch, faults) ==
      Outcome(Ok(Reference(HeadRef(branchName), refs[HeadRef(branchName)])), refs, [GetRefCall(HeadRef(branchName))])
  {
  }

  /** Any failed first lookup, not only "not found", leads on to the guards
      and the create path. So a branch that exists but could not be read is
      not recovered: its creation is refused and that error returned. */
  lemma UnreadableBranchIsNotRecovered(refs: map<RefName, Sha>, branchName: string, baseBranch: string, faults: Faults)
    requires faults.branchLookup.Some? && HeadRef(branchName) in refs
    requires branchName != baseBranch && baseBranch != ""
    requires faults.baseLookup == None && HeadRef(baseBranch) in refs && faults.create == None
    ensures Resolve(refs, branchName, baseBranch, faults) ==
      Outcome(Err(AlreadyExists(HeadRef(branchName))), refs,
              [GetRefCall(HeadRef(branchName)), GetRefCall(HeadRef(baseBranch)),
               CreateRefCall(Reference(HeadRef(branchName), refs[HeadRef(baseBranch)]))])
  {
  }

  /** A missing branch named like its base is a configuration error, whatever
      the table holds; nothing is created. This includes both names empty. */
  lemma SameBranchIsRejected(refs: map<RefName, Sha>, branchName: string, baseBranch: string, faults: Faults)
    requires Lookup(refs, HeadRef(branchName), faults.branchLookup).Err?
    requires branchName == baseBranch
    ensures Resolve(refs, branchName, baseBranch, faults) ==
      Outcome(Err(Misconfigured(ErrSameBranch)), refs, [GetRefCall(HeadRef(branchName))])
  {
  }

  /** A missing branch with an empty base is a configuration error; nothing
      is read further and nothing is created. */
  lemma EmptyBaseIsRejected(refs: map<RefName, Sha>, branchName: string, baseBranch: string, faults: Faults)
    requires Lookup(refs, HeadRef(branchName), faults.branchLookup).Err?
    requires branchName != baseBranch && baseBranch == ""
    ensures Resolve(refs, branchName, baseBranch, faults) ==
      Outcome(Err(Misconfigured(ErrEmptyBase)), refs, [GetRefCall(HeadRef(branchName))])
  {
  }

  /** A failed lookup of the base is returned as it came, and nothing is
      created. */
  lemma BaseLookupErrorIsReturned(refs: map<RefName, Sha>, branchName: string, baseBranch: string, faults: Faults)
    requires Lookup(refs, HeadRef(branchName), faults.branchLookup).Err?
    requires branchName != baseBranch && baseBranch != ""
    requires Lookup(refs, HeadRef(baseBranch), faults.baseLookup).Err?
    ensures Resolve(refs, branchName, baseBranch, faults) ==
      Outcome(Lookup(refs, HeadRef(baseBranch), faults.baseLookup), refs,
              [GetRefCall(HeadRef(branchName)), GetRefCall(HeadRef(baseBranch))])
  {
  }

  /** Create path: the request names exactly `refs/heads/<branchName>` and the
      base's commit, and the service's answer (success or error) is returned
      unchanged, with no retry. */
  lemma CreateAnswerIsReturned(refs: map<RefName, Sha>, branchName: string, baseBranch: string, faults: Faults)
    requires Lookup(refs, HeadRef(branchName), faults.branchLookup).Err?
    requires branchName != baseBranch && baseBranch != ""
    requires faults.baseLookup == None && HeadRef(baseBranch) in refs
    ensures var target := Reference(HeadRef(branchName), refs[HeadRef(baseBranch)]);
      Resolve(refs, branchName, baseBranch, faults) ==
        Outcome(Insert(refs, target, faults.create).result, Insert(refs, target, faults.create).refs,
                [GetRefCall(HeadRef(branchName)), GetRefCall(HeadRef(baseBranch)), CreateRefCall(target)])
  {
  }

  /** A success on a table without the branch is a creation: the new branch
      points at the base's commit, the base is still there unchanged, and that
      one entry is all that was added. */
  lemma CreatedBranchPointsAtBase(refs: map<RefName, Sha>, branchName: string, baseBranch: string, faults: Faults)
    requires HeadRef(branchName) !in refs
    requires Resolve(refs, branchName, baseBranch, faults).result.Ok?
    ensures branchName != baseBranch && HeadRef(baseBranch) in refs
    ensures var o := Resolve(refs, branchName, baseBranch, faults);
      o.result.value == Reference(HeadRef(branchName), refs[HeadRef(baseBranch)]) &&
      o.refs == refs[HeadRef(branchName) := refs[HeadRef(baseBranch)]] &&
      HeadRef(baseBranch) in o.refs && o.refs[HeadRef(baseBranch)] == refs[HeadRef(baseBranch)]
  {
  }

  /** Idempotence: once a call has returned a branch, a second call with the
      same names whose first lookup goes through returns the same reference,
      sends that one lookup and nothing else, and leaves the table as it is;
      so at most one of the two calls created anything. */
  lemma SecondCallTakesFastPath(refs: map<RefName, Sha>, branchName: string, baseBranch: string, first: Faults, second: Faults)
    requires Resolve(refs, branchName, baseBranch, first).result.Ok?
    requires second.branchLookup == None
    ensures var o1 := Resolve(refs, branchName, baseBranch, first);
      var o2 := Resolve(o1.refs, branchName, baseBranch, second);
      o2.result == o1.result && o2.refs == o1.refs && o2.calls == [GetRefCall(HeadRef(branchName))]
  {
  }

  /** The table left by calling `getBranch` with the same names once per
      entry of `runs`, e.g. by running the program again and again. */
  function Rerun(refs: map<RefName, Sha>, branchName: string, baseBranch: string, runs: seq<Faults>): map<RefName, Sha>
    decreases |runs|
  {
    if runs == [] then refs
    else Rerun(Resolve(refs, branchName, baseBranch, runs[0]).refs, branchName, baseBranch, runs[1..])
  }

  /** `after` keeps every entry of `before` and at most adds `name`. */
  ghost predicate GrowsAtMostBy(before: map<RefName, Sha>, after: map<RefName, Sha>, name: RefName)
  {
    (forall k :: k in before ==> k in after && after[k] == before[k]) &&
    after.Keys <= before.Keys + {name}
  }

  /** However often and with whatever failures `getBranch` is called with the
      same names, no existing ref is ever moved or removed and the only ref
      ever added is the branch: it is created at most once. */
  lemma {:induction false} RerunsCreateAtMostOnce(refs: map<RefName, Sha>, branchName: string, baseBranch: string, runs: seq<Faults>)
    ensures GrowsAtMostBy(refs, Rerun(refs, branchName, baseBranch, runs), HeadRef(branchName))
    decreases |runs|
  {
    if runs != [] {
      var next := Resolve(refs, branchName, baseBranch, runs[0]).refs;
      RerunsCreateAtMostOnce(next, branchName, baseBranch, runs[1..]);
    }
  }
}
