/** The Pizza model type (ADP_2024/Models/Pizza.cs), a key type of the
    tests. Its CompareTo orders by name first and by number of slices
    second. string.CompareTo is culture-sensitive; it is a parameter here,
    `compareNames`, of which only its sign is used. */
module Models {
  import opened Wrappers

  datatype Pizza = Pizza(pizzaName: string, numberOfSlices: int) {

    /** Pizza.CompareTo(other); `None` stands for a null argument. */
    function CompareTo(other: Option<Pizza>, compareNames: (string, string) -> int): (r: int)
      ensures r == -1 || r == 0 || r == 1
      ensures other.None? ==> r == 1
      ensures r == 0 <==> other == Some(this)
      ensures other.Some? && other.value.pizzaName == pizzaName ==>
                (r < 0 <==> numberOfSlices < other.value.numberOfSlices)
      ensures other.Some? && other.value.pizzaName != pizzaName ==>
                (r == 1 <==> compareNames(pizzaName, other.value.pizzaName) > 0)
    {
      match other
      case None => 1
      case Some(o) =>
        if pizzaName == o.pizzaName then
          if numberOfSlices == o.numberOfSlices then 0
          else if numberOfSlices < o.numberOfSlices then -1
          else 1
        else if compareNames(pizzaName, o.pizzaName) > 0 then 1
        else -1
    }
  }

  /** A string comparison whose sign flips when its arguments are swapped. */
  ghost predicate AntiSymmetricSign(compareNames: (string, string) -> int) {
    forall a, b :: compareNames(a, b) > 0 <==> compareNames(b, a) < 0
  }

  /** A string comparison that tells every two different strings apart. */
  ghost predicate Discriminating(compareNames: (string, string) -> int) {
    forall a, b :: a != b ==> compareNames(a, b) != 0
  }

  /** With a name order that is antisymmetric and tells different names
      apart, CompareTo is antisymmetric: swapping the two pizzas flips the
      result. A culture-sensitive comparison that calls two different names
      equal breaks this: both orders then give -1. */
  lemma CompareToAntiSymmetric(p: Pizza, q: Pizza, compareNames: (string, string) -> int)
    requires AntiSymmetricSign(compareNames) && Discriminating(compareNames)
    ensures p.CompareTo(Some(q), compareNames) == -q.CompareTo(Some(p), compareNames)
  {
    if p.pizzaName != q.pizzaName {
      assert compareNames(p.pizzaName, q.pizzaName) > 0 <==> compareNames(q.pizzaName, p.pizzaName) < 0;
      assert compareNames(q.pizzaName, p.pizzaName) > 0 <==> compareNames(p.pizzaName, q.pizzaName) < 0;
      assert compareNames(p.pizzaName, q.pizzaName) != 0;
    }
  }
}
