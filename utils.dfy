/** The guard every controller endpoint runs before it reaches a store. */
module Utils {
  import W = Wrappers
  import T = Types

  /**
   * `validate_anonymous`: the anonymous principal is refused with
   * `Unauthorized("UNAUTHORIZED")`; any other principal comes back as it is.
   */
  function ValidateAnonymous(p: T.Principal): (r: T.ApiResult<T.Principal>)
    ensures r.Err? <==> p == T.Anonymous
    ensures r.Err? ==> r.error == T.Unauthorized("UNAUTHORIZED")
    ensures r.Ok? ==> r.value == p
  {
    if p == T.Anonymous then W.Err(T.Unauthorized("UNAUTHORIZED")) else W.Ok(p)
  }

  /** A validated principal is not anonymous, and validating it again changes nothing. */
  lemma ValidateIdempotent(p: T.Principal)
    requires ValidateAnonymous(p).Ok?
    ensures ValidateAnonymous(p).value != T.Anonymous
    ensures ValidateAnonymous(ValidateAnonymous(p).value) == ValidateAnonymous(p)
  {
  }

  /**
   * A controller endpoint: `match validate_anonymous(&caller()) { Ok(p) =>
   * store(p), Err(err) => Err(err) }`. The store runs only for a validated
   * caller, and the guard's error is passed on unchanged.
   */
  function Guarded<X>(caller: T.Principal, store: T.Principal -> T.ApiResult<X>): (r: T.ApiResult<X>)
    ensures caller == T.Anonymous ==> r == W.Err(T.Unauthorized("UNAUTHORIZED"))
    ensures caller != T.Anonymous ==> r == store(caller)
  {
    match ValidateAnonymous(caller)
    case Ok(p) => store(p)
    case Err(e) => W.Err(e)
  }

  /** The anonymous caller gets the same error whatever the endpoint. */
  lemma GuardIgnoresStoreForAnonymous<X>(s1: T.Principal -> T.ApiResult<X>, s2: T.Principal -> T.ApiResult<X>)
    ensures Guarded(T.Anonymous, s1) == Guarded(T.Anonymous, s2) == W.Err(ValidateAnonymous(T.Anonymous).error)
  {
  }
}
