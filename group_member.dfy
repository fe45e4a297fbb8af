/**
 * Group members. A member is a name together with its runtime class:
 * `GroupMember` itself or its subclass `GroupLeader`. GroupLeader.java is not
 * part of this model; it is assumed to add nothing but the class, so the only
 * effect of being a leader is that `equals` tells the two classes apart and
 * that the member dialog refuses to delete a leader.
 */
module Members {
  import opened Optional
  import opened JavaLang

  datatype MemberClass = PlainMember | GroupLeader

  datatype Member = Member(runtimeClass: MemberClass, name: string)

  /** `new GroupMember(name)`. */
  function NewMember(name: string): Member {
    Member(PlainMember, name)
  }

  /** `new GroupLeader(name)` (assumed to pass the name to the GroupMember constructor). */
  function NewLeader(name: string): Member {
    Member(GroupLeader, name)
  }

  /** `getName()`. */
  function GetName(m: Member): string {
    m.name
  }

  /** `toString()`, what a combo box or list shows for the member. */
  function ToString(m: Member): string {
    m.name
  }

  /**
   * `m.equals(o)` for an argument that may be null: false for null, false
   * when the runtime classes differ, otherwise name equality. (The identity
   * short-cut `this == o` agrees with the last case.)
   */
  predicate Equals(m: Member, o: Option<Member>)
    ensures Equals(m, o) <==> o == Some(m)
  {
    o.Some? && m.runtimeClass == o.value.runtimeClass && m.name == o.value.name
  }

  /** `hashCode()`: `Objects.hash(name)`. */
  function HashCode(m: Member): Int32 {
    ObjectsHash1(StringHashCode(m.name))
  }

  /** Both accessors give back the name given to either constructor. */
  lemma NameRoundTrip(name: string)
    ensures GetName(NewMember(name)) == name && ToString(NewMember(name)) == name
    ensures GetName(NewLeader(name)) == name && ToString(NewLeader(name)) == name
  {
  }

  /** `equals` with a non-null argument is exactly equality of class and name, i.e. value equality. */
  lemma EqualsIsValueEquality(m: Member, o: Member)
    ensures Equals(m, Some(o)) <==> m.runtimeClass == o.runtimeClass && m.name == o.name
    ensures Equals(m, Some(o)) <==> m == o
  {
  }

  /** `equals(null)` is false. */
  lemma EqualsNullIsFalse(m: Member)
    ensures !Equals(m, None)
  {
  }

  /** A leader never equals a plain member, even one with the same name. */
  lemma LeaderIsNotPlainMember(leader: string, plain: string)
    ensures !Equals(NewLeader(leader), Some(NewMember(plain)))
    ensures !Equals(NewMember(plain), Some(NewLeader(leader)))
  {
  }

  /** `equals` is reflexive, symmetric and transitive. */
  lemma EqualsIsEquivalence(a: Member, b: Member, c: Member)
    ensures Equals(a, Some(a))
    ensures Equals(a, Some(b)) <==> Equals(b, Some(a))
    ensures Equals(a, Some(b)) && Equals(b, Some(c)) ==> Equals(a, Some(c))
  {
  }

  /** Equal members have equal hash codes. */
  lemma HashCodeAgreesWithEquals(a: Member, b: Member)
    requires Equals(a, Some(b))
    ensures HashCode(a) == HashCode(b)
  {
  }

  /** The hash code depends on the name only: a leader hashes like a plain member of the same name. */
  lemma HashCodeIgnoresClass(name: string)
    ensures HashCode(NewLeader(name)) == HashCode(NewMember(name))
    ensures NewLeader(name) != NewMember(name)
  {
  }
}
