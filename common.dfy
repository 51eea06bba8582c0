/**
 * The count-based comparison operators of Common.kt.
 *
 * Kotlin's `Iterable.count()` walks the collection one element at a time;
 * `Count` does the same over a sequence. Kotlin arrays are Dafny arrays, so
 * the overloads that take an `Array<*>` read that array.
 */
module Common {

  /** The number of elements of `s`, counted one by one. */
  function Count<T>(s: seq<T>): (n: nat)
    ensures n == |s|
  {
    if s == [] then 0 else 1 + Count(s[1..])
  }

  /** `Iterable<*>.compareTo(Iterable<*>)`. */
  function IterableCompareTo<A, B>(a: seq<A>, b: seq<B>): (r: int)
    ensures r == |a| - |b|
  {
    Count(a) - Count(b)
  }

  /** `Array<*>.compareTo(Iterable<*>)`: the overload behind `inputs > inputElements`. */
  function ArrayCompareTo<A, B>(a: array<A>, b: seq<B>): (r: int)
    reads a
    ensures r == a.Length - |b|
  {
    Count(a[..]) - Count(b)
  }

  /** `Iterable<*>.compareTo(Array<*>)`. */
  function IterableCompareToArray<A, B>(a: seq<A>, b: array<B>): (r: int)
    reads b
    ensures r == |a| - b.Length
  {
    Count(a) - Count(b[..])
  }

  /** Swapping the operands of the iterable overload negates the result. */
  lemma IterableCompareToAntisymmetric<A, B>(a: seq<A>, b: seq<B>)
    ensures IterableCompareTo(a, b) == -IterableCompareTo(b, a)
  {
  }

  /** The two mixed overloads are each other's mirror image. */
  lemma MixedCompareToAntisymmetric<A, B>(a: array<A>, b: seq<B>)
    ensures ArrayCompareTo(a, b) == -IterableCompareToArray(b, a)
  {
  }

}
