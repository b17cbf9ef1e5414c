/** The part of the GitHub Git Data API that the branch resolver talks to:
    reading and creating the references of one repository.

    A `Remote` stands for the ref table of the repository that the caller
    selected by owner and name: a map from fully qualified ref names
    (`refs/heads/main`) to the commit SHA each one points at. Whether a round
    trip to the service fails for a reason other than the table's contents
    (network error, rate limit, server error, an ambiguous match) is not
    something the client can see in advance, so every call takes that outcome
    as a parameter `fault`: `Some(message)` when the service failed. */
module GitRefs {

  type RefName = string
  type Sha = string

  datatype Option<+T> = None | Some(value: T)

  /** A reference as the API returns it: its full name and the SHA of the
      object it points at (`Ref` and `Object.SHA` of `github.Reference`). */
  datatype Reference = Reference(ref: RefName, sha: Sha)

  /** The errors a call can produce. `NotFound` and `AlreadyExists` are the
      service's answers about the table; `Unavailable` is every other failure
      of a round trip; `Misconfigured` is an error built by the caller. */
  datatype Error =
    | NotFound(name: RefName)
    | AlreadyExists(name: RefName)
    | Unavailable(message: string)
    | Misconfigured(message: string)

  /** Go's `(value, err)` pair: `Ok` when `err == nil`. */
  datatype Result<+T> = Ok(value: T) | Err(error: Error)

  /** One request sent to the service, as recorded in a `Remote`'s trace. */
  datatype Call = GetRefCall(name: RefName) | CreateRefCall(target: Reference)

  /** The answer of a ref creation together with the table it leaves. */
  datatype Effect = Effect(result: Result<Reference>, refs: map<RefName, Sha>)

  /** What `GetRef(name)` answers on the table `refs`. */
  function Lookup(refs: map<RefName, Sha>, name: RefName, fault: Option<string>): (r: Result<Reference>)
    ensures r.Ok? <==> fault == None && name in refs
    ensures r.Ok? ==> r.value.ref == name && r.value.sha == refs[name]
    ensures r.Err? && fault == None ==> r.error == NotFound(name)
    ensures fault.Some? ==> r.error == Unavailable(fault.value)
  {
    if fault.Some? then Err(Unavailable(fault.value))
    else if name in refs then Ok(Reference(name, refs[name]))
    else Err(NotFound(name))
  }

  /** What `CreateRef(target)` answers on the table `refs`, and the table it
      leaves: the service refuses a name that is already taken. */
  function Insert(refs: map<RefName, Sha>, target: Reference, fault: Option<string>): (e: Effect)
    ensures e.result.Ok? <==> fault == None && target.ref !in refs
    ensures e.result.Ok? ==> e.result.value == target && e.refs == refs[target.ref := target.sha]
    ensures e.result.Err? ==> e.refs == refs
    ensures e.result.Err? && fault == None ==> e.result.error == AlreadyExists(target.ref)
    ensures fault.Some? ==> e.result.error == Unavailable(fault.value)
  {
    if fault.Some? then Effect(Err(Unavailable(fault.value)), refs)
    else if target.ref in refs then Effect(Err(AlreadyExists(target.ref)), refs)
    else Effect(Ok(target), refs[target.ref := target.sha])
  }

  /** The `client.Git` service of one repository. */
  class Remote {
    /** The repository's ref table. */
    var refs: map<RefName, Sha>
    /** Every request sent so far, oldest first. */
    ghost var calls: seq<Call>

    constructor (initial: map<RefName, Sha>)
      ensures refs == initial && calls == []
    {
      refs := initial;
      calls := [];
    }

    /** `client.Git.GetRef`: reads one reference; never changes the table. */
    method GetRef(name: RefName, fault: Option<string>) returns (r: Result<Reference>)
      modifies this`calls
      ensures r == Lookup(refs, name, fault)
      ensures calls == old(calls) + [GetRefCall(name)]
    {
      calls := calls + [GetRefCall(name)];
      r := Lookup(refs, name, fault);
    }

    /** `client.Git.CreateRef`: adds `target` to the table unless its name is
        taken or the round trip fails. */
    method CreateRef(target: Reference, fault: Option<string>) returns (r: Result<Reference>)
      modifies this
      ensures r == Insert(old(refs), target, fault).result
      ensures refs == Insert(old(refs), target, fault).refs
      ensures calls == old(calls) + [CreateRefCall(target)]
    {
      calls := calls + [CreateRefCall(target)];
      var effect := Insert(refs, target, fault);
      r, refs := effect.result, effect.refs;
    }
  }
}
