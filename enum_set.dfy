/**
 * `java.util.EnumSet`, reduced to what `EnumSet.plus` uses: a mutable set
 * of enum constants that can be copied (`EnumSet.copyOf`) and extended in
 * place (`addAll`). The bit-vector representation of the JDK is not
 * modelled; the contents are a mathematical set.
 */
module EnumSets {

  class EnumSet<E(==)> {
    /** The constants currently in the set. */
    var elements: set<E>

    /** `EnumSet.copyOf(other)`: a new set with the same constants, `other` untouched. */
    constructor CopyOf(other: EnumSet<E>)
      ensures elements == other.elements
    {
      elements := other.elements;
    }

    /**
     * `addAll(other)`: adds every constant of `other` to this set and tells
     * whether this set changed. `other` may be this very set.
     */
    method AddAll(other: EnumSet<E>) returns (changed: bool)
      modifies this
      ensures elements == old(elements) + old(other.elements)
      ensures changed <==> !(old(other.elements) <= old(elements))
    {
      changed := !(other.elements <= elements);
      elements := elements + other.elements;
    }
  }
}
