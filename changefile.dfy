/** `getBranch` of the changefile command, a copy of the multigitter one. */
module Changefile {
  import opened GitRefs
  import opened BranchResolver
  import Multigitter

  /** Returns the branch `refs/heads/<branchName>` of the repository `client`
      serves, creating it at the commit of `refs/heads/<baseBranch>` when it
      cannot be read. */
  method GetBranch(client: Remote, branchName: string, baseBranch: string, faults: Faults)
    returns (ref: Result<Reference>)
    modifies client
    ensures var o := Resolve(old(client.refs), branchName, baseBranch, faults);
      ref == o.result && client.refs == o.refs && client.calls == old(client.calls) + o.calls
  {
    ref := client.GetRef(HeadRef(branchName), faults.branchLookup);
    if ref.Ok? {
      return;
    }

    if branchName == baseBranch {
      return Err(Misconfigured(ErrSameBranch));
    }

    if baseBranch == "" {
      return Err(Misconfigured(ErrEmptyBase));
    }

    var baseRef := client.GetRef(HeadRef(baseBranch), faults.baseLookup);
    if baseRef.Err? {
      return Err(baseRef.error);
    }
    var newRef := Reference(HeadRef(branchName), baseRef.value.sha);
    ref := client.CreateRef(newRef, faults.create);
  }

  /** The two copies agree: started on two repositories with the same ref
      table and met with the same failures, they return the same result,
      leave the same table and send the same requests. This method exists
      only to state that fact; nothing in the program calls it. */
  method CopiesAgree(initial: map<RefName, Sha>, branchName: string, baseBranch: string, faults: Faults)
    returns (fromMultigitter: Result<Reference>, fromChangefile: Result<Reference>,
             refsMultigitter: map<RefName, Sha>, refsChangefile: map<RefName, Sha>,
             ghost callsMultigitter: seq<Call>, ghost callsChangefile: seq<Call>)
    ensures fromMultigitter == fromChangefile && refsMultigitter == refsChangefile
    ensures callsMultigitter == callsChangefile
  {
    var a := new Remote(initial);
    var b := new Remote(initial);
    fromMultigitter := Multigitter.GetBranch(a, branchName, baseBranch, faults);
    fromChangefile := GetBranch(b, branchName, baseBranch, faults);
    refsMultigitter, refsChangefile := a.refs, b.refs;
    callsMultigitter, callsChangefile := a.calls, b.calls;
  }
}
