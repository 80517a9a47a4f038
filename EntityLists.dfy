/**
 * The list operations both entity managers perform on their arrays of
 * entities: JavaScript's `splice(start, 1)`, removal at an index, and the
 * first-match search by unique id.
 */
module EntityLists {
  import opened Wrappers
  import opened Entities

  /** Removes the element at `i`, keeping the order of the rest. */
  function RemoveAt<T>(s: seq<T>, i: nat): (r: seq<T>)
    requires i < |s|
    ensures |r| == |s| - 1
    ensures forall k :: 0 <= k < i ==> r[k] == s[k]
    ensures forall k :: i <= k < |r| ==> r[k] == s[k + 1]
  {
    s[..i] + s[i + 1..]
  }

  /**
   * `splice(start, 1)` on an array: a negative start counts from the end
   * (and stops at 0), a start at or past the end removes nothing.
   */
  function SpliceOne<T>(s: seq<T>, start: int): (r: seq<T>)
    ensures |r| == |s| || |r| == |s| - 1
    ensures start >= |s| ==> r == s
    ensures 0 <= start < |s| ==> r == RemoveAt(s, start)
  {
    var actual := if start < 0 then (if |s| + start < 0 then 0 else |s| + start) else start;
    if actual < |s| then RemoveAt(s, actual) else s
  }

  /** Splicing at the position just past the last element removes nothing. */
  lemma SpliceAtLengthKeepsAll<T>(s: seq<T>)
    ensures SpliceOne(s, |s|) == s
  {
  }

  /**
   * The position of the first entity of `s` whose unique id is `uniqueId`
   * (the ids are integers, so `==` and `===` agree).
   */
  function FirstWithId(s: seq<Entity>, uniqueId: int): (r: Option<nat>)
    ensures r.Some? ==> r.value < |s| && s[r.value].uniqueId == uniqueId
    ensures r.Some? ==> forall k :: 0 <= k < r.value ==> s[k].uniqueId != uniqueId
    ensures r.None? ==> forall k :: 0 <= k < |s| ==> s[k].uniqueId != uniqueId
  {
    if s == [] then None
    else if s[0].uniqueId == uniqueId then Some(0)
    else match FirstWithId(s[1..], uniqueId)
      case None => None
      case Some(i) => Some(i + 1)
  }

  /** The entity `FirstWithId` designates, or null. */
  function EntityWithId(s: seq<Entity>, uniqueId: int): Entity? {
    match FirstWithId(s, uniqueId)
    case None => null
    case Some(i) => s[i]
  }

  /** The `for ... of` search of `getEntityById`: the first match, or null. */
  method FindById(s: seq<Entity>, uniqueId: int) returns (found: Entity?)
    ensures found == EntityWithId(s, uniqueId)
    ensures found == null <==> forall k :: 0 <= k < |s| ==> s[k].uniqueId != uniqueId
  {
    var i := 0;
    while i < |s|
      invariant 0 <= i <= |s|
      invariant forall k :: 0 <= k < i ==> s[k].uniqueId != uniqueId
    {
      if s[i].uniqueId == uniqueId {
        FirstIsUnique(s, uniqueId, i);
        return s[i];
      }
      i := i + 1;
    }
    return null;
  }

  /** An index holding the id with no earlier match is the one `FirstWithId` finds. */
  lemma {:induction false} FirstIsUnique(s: seq<Entity>, uniqueId: int, i: nat)
    requires i < |s| && s[i].uniqueId == uniqueId
    requires forall k :: 0 <= k < i ==> s[k].uniqueId != uniqueId
    ensures FirstWithId(s, uniqueId) == Some(i)
  {
    if i > 0 {
      FirstIsUnique(s[1..], uniqueId, i - 1);
    }
  }

  /** In a list whose ids are strictly increasing, the ids are distinct, so the search is unambiguous. */
  lemma IncreasingIdsFindTheOne(s: seq<Entity>, i: nat)
    requires forall a, b :: 0 <= a < b < |s| ==> s[a].uniqueId < s[b].uniqueId
    requires i < |s|
    ensures FirstWithId(s, s[i].uniqueId) == Some(i)
  {
    FirstIsUnique(s, s[i].uniqueId, i);
  }
}
