/** A tracked-data category: a name, compared by value. */
module Categories {
  import opened Wrappers

  /** `new TrackedDataCategory(name)`: the constructor stores the name unchanged. */
  datatype TrackedDataCategory = TrackedDataCategory(name: string)

  /** `c.Equals(other)`, where `None` stands for `null` or an object that is not a category:
      the names are compared, so equality is value equality of the whole category. */
  function Equals(c: TrackedDataCategory, other: Option<TrackedDataCategory>): (r: bool)
    ensures r <==> other == Some(c)
  {
    match other
    case Some(o) => c.name == o.name
    case None => false
  }

  /** `c.GetHashCode()`: the hash of the name under the string hash `hash`, which is not modelled;
      every category equal to `c` has the same hash code. */
  function HashCode(c: TrackedDataCategory, hash: string -> int): (h: int)
    ensures forall d: TrackedDataCategory :: Equals(c, Some(d)) ==> h == hash(ToString(d))
  {
    hash(c.name)
  }

  /** `c.ToString()`: the name, from which the constructor rebuilds the same category. */
  function ToString(c: TrackedDataCategory): (s: string)
    ensures TrackedDataCategory(s) == c
  {
    c.name
  }

  /** Equal categories hash alike, whatever the string hash is. */
  lemma EqualsHashCode(c: TrackedDataCategory, d: TrackedDataCategory, hash: string -> int)
    requires Equals(c, Some(d))
    ensures HashCode(c, hash) == HashCode(d, hash)
  {
  }

  /** `Equals` is an equivalence relation. */
  lemma EqualsEquivalence(a: TrackedDataCategory, b: TrackedDataCategory, c: TrackedDataCategory)
    ensures Equals(a, Some(a))
    ensures Equals(a, Some(b)) <==> Equals(b, Some(a))
    ensures Equals(a, Some(b)) && Equals(b, Some(c)) ==> Equals(a, Some(c))
  {
  }

  /** Two categories are equal exactly when their texts are. */
  lemma EqualsToString(a: TrackedDataCategory, b: TrackedDataCategory)
    ensures Equals(a, Some(b)) <==> ToString(a) == ToString(b)
  {
  }
}
