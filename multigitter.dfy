/** `getBranch` of the multigitter command. */
module Multigitter {
  import opened GitRefs
  import opened BranchResolver

  /** Returns the branch `refs/heads/<branchName>` of the repository `client`
      serves, creating it at the commit of `refs/heads/<baseBranch>` when it
      cannot be read. */
  method GetBranch(client: Remote, branchName: string, baseBranch: string, faults: Faults)
    returns (ref: Result<Reference>)
    modifies client
    ensures var o := Resolve(old(client.refs), branchName, baseBranch, faults);
      ref == o.result && client.refs == o.refs && client.calls == old(client.calls) + o.calls
  {
    ref := client.GetRef(HeadRef(branchName), faults.branchLookup);
    if ref.Ok? {
      return;
    }

    if branchName == baseBranch {
      return Err(Misconfigured(ErrSameBranch));
    }

    if baseBranch == "" {
      return Err(Misconfigured(ErrEmptyBase));
    }

    var baseRef := client.GetRef(HeadRef(baseBranch), faults.baseLookup);
    if baseRef.Err? {
      return Err(baseRef.error);
    }
    var newRef := Reference(HeadRef(branchName), baseRef.value.sha);
    ref := client.CreateRef(newRef, faults.create);
  }
}
