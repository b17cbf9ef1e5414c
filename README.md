# multigitter: the get-or-create of a working branch

The two commands of multigitter (`cmd/multigitter` and `cmd/changefile`) both
call `getBranch` once they have found the repository. Only `cmd/multigitter`
then writes to the branch; `cmd/changefile` only prints it. The two copies of
`getBranch` are the same code. `getBranch(branchName, baseBranch)` works in four steps:

1. It reads `refs/heads/<branchName>` and returns it if the read succeeds.
2. Otherwise it refuses two configurations. A branch named like its base is
   refused first, then an empty base.
3. Otherwise it reads `refs/heads/<baseBranch>` and returns that error if the
   read fails.
4. Otherwise it asks the service to create `refs/heads/<branchName>` at the
   base's commit, and returns whatever the service answers.

The model has these parts:

- `GitRefs` models the GitHub Git Data API of one repository. The class
  `Remote` holds the repository's ref table, a map from full ref name to commit
  SHA. It also holds a ghost trace of the requests sent. `GetRef` is a map
  lookup and `CreateRef` is an insertion that refuses a name already taken.
  Any other failure of a round trip is an input to each call (`fault`),
  because the client cannot predict it. This covers network errors and rate
  limits. It also covers refusals that depend on parts of the table this model
  does not examine, such as an ambiguous prefix match or a ref-path conflict.
- `BranchResolver` holds `Resolve`, which gives the result of one call, the
  table it leaves and the requests it sends, all as a function of the starting
  table. The properties of `getBranch` are proved about `Resolve` as lemmas.
- `Multigitter.GetBranch` and `Changefile.GetBranch` are the two copies,
  written as methods on a `Remote`. Each is proved to do exactly what
  `Resolve` says, so every lemma about `Resolve` holds of both copies.

The properties of `cmd/changefile/main.go:77-97` are the same as those of the
multigitter copy:

- fast path: `FoundBranchIsReturned`;
- the two guards: `SameBranchIsRejected`, `EmptyBaseIsRejected`;
- base missing: `BaseLookupErrorIsReturned`;
- created ref: `CreateAnswerIsReturned`, `CreatedBranchPointsAtBase`.

`Changefile.CopiesAgree` states that the two copies give the same outcome.

A get-or-create is often written to treat only "not found" as absence, and
"already exists" as success. This code does neither
(`cmd/multigitter/main.go:114`, `:131-132`), and the model follows it:

- every error of the first lookup counts as absence (`UnreadableBranchIsNotRecovered`);
- a creation refused with "already exists" is returned as an error unchanged
  (`CreateAnswerIsReturned`, `UnreadableBranchIsNotRecovered`).

## Model

| member | source | states |
|---|---|---|
| `GitRefs.Lookup` | cmd/multigitter/main.go:114 | a read succeeds exactly when the round trip works and the name is in the table, and then returns that entry; otherwise it is not-found or the round trip's failure |
| `GitRefs.Insert` | cmd/multigitter/main.go:131 | a creation succeeds exactly when the round trip works and the name is free; success adds exactly that one entry, and failure leaves the table as it was with already-exists or the round trip's failure |
| `GitRefs.Remote.GetRef` | cmd/multigitter/main.go:127 | a read answers as `Lookup` on the current table, changes no ref and records one read request |
| `GitRefs.Remote.CreateRef` | cmd/multigitter/main.go:131 | a creation answers as `Insert` and leaves the table `Insert` gives, recording one create request |
| `BranchResolver.HeadRef` | cmd/multigitter/main.go:130 | a branch's ref name is `refs/heads/` followed by exactly the branch name |
| `BranchResolver.HeadRefInjective` | cmd/multigitter/main.go:118-130 | two branch names give the same ref name only when they are equal, so the new branch is never the base's ref |
| `BranchResolver.Guard` | cmd/multigitter/main.go:118-124 | the configuration is accepted exactly when the names differ and the base is non-empty; equal names give the equality error even when both are empty, since that check runs first |
| `BranchResolver.Resolve` | cmd/multigitter/main.go:113-133 | every call first reads the branch and sends at most three requests; a returned reference is the branch as the table now holds it; the table is either unchanged or has gained exactly that previously absent branch |
| `BranchResolver.FoundBranchIsReturned` | cmd/multigitter/main.go:114-116 | a branch that can be read is returned as stored, with one request and the table unchanged |
| `BranchResolver.UnreadableBranchIsNotRecovered` | cmd/multigitter/main.go:114-132 | any failed first read falls through to the create path, even if the branch exists; the service's already-exists refusal is then returned and the table is unchanged |
| `BranchResolver.SameBranchIsRejected` | cmd/multigitter/main.go:118-120 | an unread branch named like its base gives the equality error whatever the table holds; one request, nothing created |
| `BranchResolver.EmptyBaseIsRejected` | cmd/multigitter/main.go:122-124 | an unread branch with an empty base that differs from it gives the empty-base error; one request, nothing created |
| `BranchResolver.BaseLookupErrorIsReturned` | cmd/multigitter/main.go:126-129 | a failed read of the base returns that very error after two requests, and the table is unchanged |
| `BranchResolver.CreateAnswerIsReturned` | cmd/multigitter/main.go:130-132 | on the create path the request is `refs/heads/<branchName>` at the base's SHA, and the service's answer and table are returned as they are, with no retry and no already-exists recovery |
| `BranchResolver.CreatedBranchPointsAtBase` | cmd/multigitter/main.go:130-131 | a success on a table without the branch means a creation: the new ref points at the base's SHA, the base is present and unchanged, and nothing else was added |
| `BranchResolver.SecondCallTakesFastPath` | cmd/multigitter/main.go:114-116 | after a successful call, a second call with the same names whose first read goes through returns the same reference with one read request and no change, so only one of the two calls can have created anything |
| `BranchResolver.RerunsCreateAtMostOnce` | cmd/multigitter/main.go:113-133 | over any number of calls with the same names and any failures, no existing ref is moved or removed and only the branch can be added, so it is created at most once |
| `Multigitter.GetBranch` | cmd/multigitter/main.go:113-133 | the result, the final table and the requests sent are exactly those of `Resolve` on the starting table |
| `Changefile.GetBranch` | cmd/changefile/main.go:77-97 | the result, the final table and the requests sent are exactly those of `Resolve` on the starting table |
| `Changefile.CopiesAgree` | cmd/changefile/main.go:77-97 | for every starting table, pair of names and set of failures, both copies return the same result, leave the same table and send the same requests |

## Left out

- The `owner`, `repo` and `ctx` parameters of `getBranch` are left out. A `Remote` object stands for the one repository they select, and cancellation is not modelled.
- A reference is modelled as its name and its object's SHA only. The other fields of the API's answer (URL, node id, object type) are not modelled.
- GitRefs.Insert: a failed creation is assumed to have had no effect on the table. A real request can time out on the client after the service has created the ref; then `getBranch` returns an error and the branch exists anyway. This assumption is what makes `Resolve` promise "unchanged, or `Ok` and gained exactly the branch".
- GitRefs.Insert: other writers to the repository are not modelled. The table changes only through this client's own calls. So the race in which someone else creates the branch between the first read and the creation is not modelled. In the model, "already exists" comes back only when the branch was already in the table at the first read.
- GitRefs.Insert: refusals caused by the table other than a taken name are folded into `fault`. These are ref-path conflicts (creating `refs/heads/a` while `refs/heads/a/b` exists) and invalid names.
- Why a round trip fails is not modelled. HTTP errors, rate limits, and go-github's refusal of a prefix match ("refs/heads/" alone, or a name that is a prefix of other branches) all become the `fault` input. A fault is passed per call, so the model does not say when one occurs.
- The `main` functions of both commands are left out. They load `.env`, read the environment, build the OAuth client, search for the repository, print, and stop with `log.Fatalf`. All of this is I/O.
- The file calls `CreateFile`, `GetContents` and `UpdateFile` are left out. They are remote calls with no local decision logic, and the edit made before `UpdateFile` depends on the clock.
- `calculateSHA` is left out. It wraps SHA-256, a foreign hash. It hashes the new content, not the observed blob, so it is no revision check.
- The commented-out code is left out: the pull-request creation and the table of repositories.
- Cloning with retry, retrying a write after a conflict, and recovering from already-exists are not in the code, so the model does not have them.
