/** Searching a list for the first element that a callback accepts (find_first of linked_list.c), and
    facts about collections. */
module Lists {

  /** The first index whose element satisfies `p`, or the length of the list. */
  function FirstIndex<T>(list: seq<T>, p: T -> bool): (k: nat)
    ensures k <= |list|
    ensures forall i | 0 <= i < k :: !p(list[i])
    ensures k < |list| ==> p(list[k])
  {
    if list == [] || p(list[0]) then 0 else 1 + FirstIndex(list[1..], p)
  }

  lemma FirstIndexUnique<T>(list: seq<T>, p: T -> bool, k: nat)
    requires k <= |list| && (forall i | 0 <= i < k :: !p(list[i])) && (k < |list| ==> p(list[k]))
    ensures FirstIndex(list, p) == k
  {
  }

  lemma SubsetSize<T>(a: set<T>, b: set<T>)
    requires a <= b
    ensures |a| <= |b|
  {
    assert b == a + (b - a);
  }

  lemma Assoc<T>(a: seq<T>, b: seq<T>, c: seq<T>)
    ensures a + b + c == a + (b + c)
  {
  }
}
