/** Values shared by the backend store and the mobile client: optional values,
    error results, the relationship status and the public profile that the
    REST API sends to clients. */
module Common {

  datatype Option<+T> = None | Some(value: T) {
    /** The value when present, `default` otherwise (`x ?? default`). */
    function GetOr(default: T): T {
      match this
      case Some(v) => v
      case None => default
    }
  }

  datatype Result<+T, +E> = Ok(value: T) | Err(error: E)

  datatype RelationshipStatus = Single | NotSingle

  /** A profile as other users see it: no email, password or creation time. */
  datatype PublicUser = PublicUser(
    id: string,
    name: string,
    relationshipStatus: RelationshipStatus,
    photo: Option<string>,
    bio: Option<string>,
    age: Option<int>)

  /** `Array.prototype.findIndex`: the first index whose element satisfies `p`. */
  function FindIndex<T>(s: seq<T>, p: T -> bool): (r: Option<nat>)
    ensures r.Some? ==> r.value < |s| && p(s[r.value])
    ensures r.Some? ==> forall j :: 0 <= j < r.value ==> !p(s[j])
    ensures r.None? <==> forall j :: 0 <= j < |s| ==> !p(s[j])
  {
    if s == [] then None
    else if p(s[0]) then Some(0)
    else
      match FindIndex(s[1..], p)
      case None => None
      case Some(k) => Some(k + 1)
  }

  /** `a` is `b` with some elements removed, the rest kept in order. */
  predicate IsSubsequence<T(==)>(a: seq<T>, b: seq<T>)
  {
    if a == [] then true
    else if b == [] then false
    else if a[0] == b[0] then IsSubsequence(a[1..], b[1..])
    else IsSubsequence(a, b[1..])
  }
}
