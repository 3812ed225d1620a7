/**
 A room's member list is an ordered list of connection ids in which the same
 id may occur more than once (joining twice appends twice). On disconnect the
 server rebuilds each list with every occurrence of the leaving id filtered
 out, keeping the order of the others. This module defines that filter and
 proves what it means: exact contents with multiplicity, order, idempotence
 and when the result is empty.
 */
module Members {

  type ConnId = string

  /** The members of `members` other than `id`, in their original order. */
  function Without(members: seq<ConnId>, id: ConnId): (r: seq<ConnId>)
    ensures |r| <= |members|
    ensures forall x :: x in r <==> x in members && x != id
  {
    if members == [] then []
    else if members[0] == id then Without(members[1..], id)
    else [members[0]] + Without(members[1..], id)
  }

  /** Filtering distributes over concatenation: the relative order of the
      surviving members is exactly their order in the original list. */
  lemma {:induction false} WithoutConcat(a: seq<ConnId>, b: seq<ConnId>, id: ConnId)
    ensures Without(a + b, id) == Without(a, id) + Without(b, id)
  {
    if a == [] {
      assert a + b == b;
    } else {
      assert (a + b)[0] == a[0];
      assert (a + b)[1..] == a[1..] + b;
      WithoutConcat(a[1..], b, id);
    }
  }

  /** Every other member keeps its number of occurrences; `id` has none left. */
  lemma {:induction false} WithoutMultiset(members: seq<ConnId>, id: ConnId)
    ensures multiset(Without(members, id)) == multiset(members)[id := 0]
  {
    if members != [] {
      WithoutMultiset(members[1..], id);
      assert members == [members[0]] + members[1..];
    }
  }

  /** A list that does not contain `id` is left exactly as it was. */
  lemma {:induction false} WithoutAbsent(members: seq<ConnId>, id: ConnId)
    requires id !in members
    ensures Without(members, id) == members
  {
    if members != [] {
      assert members[0] != id;
      assert id !in members[1..];
      WithoutAbsent(members[1..], id);
      assert members == [members[0]] + members[1..];
    }
  }

  /** Filtering twice is filtering once. */
  lemma WithoutIdempotent(members: seq<ConnId>, id: ConnId)
    ensures Without(Without(members, id), id) == Without(members, id)
  {
    WithoutAbsent(Without(members, id), id);
  }

  /** The filtered list is empty exactly when every entry of the original
      list is the leaving id (including the empty list). */
  lemma WithoutEmpty(members: seq<ConnId>, id: ConnId)
    ensures Without(members, id) == [] <==> forall k :: 0 <= k < |members| ==> members[k] == id
  {
  }
}
