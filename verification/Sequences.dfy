/** Sequences without repetition, and what one insertion or one removal makes of them. */
module Sequences {
  ghost predicate Distinct<T>(list: seq<T>) {
    forall i, j :: 0 <= i < j < |list| ==> list[i] != list[j]
  }

  ghost function Inserted<T>(list: seq<T>, k: nat, x: T): seq<T>
    requires k <= |list|
  {
    list[..k] + [x] + list[k..]
  }

  ghost function Removed<T>(list: seq<T>, k: nat): seq<T>
    requires k < |list|
  {
    list[..k] + list[k + 1..]
  }

  lemma InsertedAt<T>(list: seq<T>, k: nat, x: T)
    requires k <= |list|
    ensures |Inserted(list, k, x)| == |list| + 1
    ensures forall i {:trigger Inserted(list, k, x)[i]} :: 0 <= i <= |list| ==>
              Inserted(list, k, x)[i] == if i < k then list[i] else if i == k then x else list[i - 1]
  {
  }

  lemma RemovedAt<T>(list: seq<T>, k: nat)
    requires k < |list|
    ensures |Removed(list, k)| == |list| - 1
    ensures forall i {:trigger Removed(list, k)[i]} :: 0 <= i < |list| - 1 ==>
              Removed(list, k)[i] == if i < k then list[i] else list[i + 1]
  {
  }

  lemma InsertedDistinct<T>(list: seq<T>, k: nat, x: T)
    requires k <= |list| && Distinct(list) && x !in list
    ensures Distinct(Inserted(list, k, x))
    ensures forall y :: y !in list && y != x ==> y !in Inserted(list, k, x)
  {
    InsertedAt(list, k, x);
  }

  lemma RemovedDistinct<T>(list: seq<T>, k: nat)
    requires k < |list| && Distinct(list)
    ensures Distinct(Removed(list, k)) && forall y :: y !in list ==> y !in Removed(list, k)
  {
    RemovedAt(list, k);
  }
}
