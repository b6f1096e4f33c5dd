/**
 * Identity of persisted entities (`BaseEntity.hashCode` and `BaseEntity.equals`).
 * An entity is seen as a record of its object reference, runtime class and fields.
 */
module Entities {
  import opened Wrappers

  /** Java `long` and `int` ranges. */
  type Long = x: int | -0x8000_0000_0000_0000 <= x < 0x8000_0000_0000_0000
  type Int32 = x: int | -0x8000_0000 <= x < 0x8000_0000

  /** A runtime class (`getClass()`): its name and its identity hash code for this run. */
  datatype ClassTag = ClassTag(name: string, identityHash: Int32)

  /**
   * An entity object: `ref` is its identity on the heap, `cls` its runtime subclass, `id` and
   * `version` the nullable key and optimistic-lock counter; the timestamps and `attributes`
   * stand for every other field of the subclass.
   */
  datatype BaseEntity = BaseEntity(
    ref: nat,
    cls: ClassTag,
    id: Option<Long>,
    version: Option<Int32>,
    createDate: Option<int>,
    modifyDate: Option<int>,
    attributes: map<string, string>)

  /** Java `int` addition: the sum reduced into the signed 32-bit range (two's-complement wrap-around). */
  function WrapInt32(x: int): (r: Int32)
    ensures (r - x) % 0x1_0000_0000 == 0
  {
    var m := x % 0x1_0000_0000;
    if m < 0x8000_0000 then m else m - 0x1_0000_0000
  }

  /** `Long.hashCode`: the two 32-bit halves of the two's-complement value, exclusive-or'ed. */
  function LongHashCode(v: Long): Int32 {
    var u := (v % 0x1_0000_0000_0000_0000) as bv64;
    WrapInt32(((u ^ (u >> 32)) & 0xFFFF_FFFF) as int)
  }

  /** `Objects.hashCode(id)`: 0 for null. */
  function IdHashCode(id: Option<Long>): (h: Int32)
    ensures id.None? ==> h == 0
  {
    match id
    case None => 0
    case Some(v) => LongHashCode(v)
  }

  /**
   * `hashCode`: hash of the id plus hash of the runtime class, in wrapping 32-bit arithmetic.
   * Entities not yet persisted (null id) hash to their class's hash.
   */
  function HashCode(e: BaseEntity): (h: Int32)
    ensures (h - IdHashCode(e.id) - e.cls.identityHash) % 0x1_0000_0000 == 0
    ensures e.id.None? ==> h == e.cls.identityHash
  {
    WrapInt32(IdHashCode(e.id) + e.cls.identityHash)
  }

  /** The hash code survives any change to fields other than id and class (version, dates, attributes). */
  lemma HashCodeIgnoresOtherFields(e: BaseEntity, version: Option<Int32>, createDate: Option<int>,
                                   modifyDate: Option<int>, attributes: map<string, string>)
    ensures HashCode(e.(version := version, createDate := createDate, modifyDate := modifyDate,
                        attributes := attributes)) == HashCode(e)
  {
  }

  /** What a call of `equals` does: return a boolean or throw NullPointerException. */
  datatype Equality = Returns(value: bool) | ThrowsNullPointer

  /**
   * `equals(that)` as written: false for null, true for the same object, false for another
   * class or another hash, then `id.equals(other.id) && version.equals(other.version)`, which
   * dereferences this entity's id and version.
   */
  function Equals(e: BaseEntity, that: Option<BaseEntity>): (r: Equality)
    ensures that.None? ==> r == Returns(false)
    ensures that.Some? && that.value.ref == e.ref ==> r == Returns(true)
    ensures that.Some? && that.value.ref != e.ref && that.value.cls != e.cls ==> r == Returns(false)
    ensures r == Returns(true) ==> that.Some? && (that.value.ref == e.ref || HashCode(e) == HashCode(that.value))
  {
    if that.None? then Returns(false)
    else if e.ref == that.value.ref then Returns(true)
    else if e.cls != that.value.cls then Returns(false)
    else if HashCode(e) != HashCode(that.value) then Returns(false)
    else if e.id.None? then ThrowsNullPointer
    else if e.id != that.value.id then Returns(false)
    else if e.version.None? then ThrowsNullPointer
    else Returns(e.version == that.value.version)
  }

  /** Distinct objects of one class with an id and a version are equal exactly when id and version agree. */
  lemma EqualsByIdAndVersion(a: BaseEntity, b: BaseEntity)
    requires a.ref != b.ref && a.cls == b.cls && a.id.Some? && a.version.Some?
    ensures Equals(a, Some(b)) == Returns(a.id == b.id && a.version == b.version)
  {
  }

  /** When class and hash checks pass, a null id (or a matching id with a null version) throws. */
  lemma EqualsDereferencesNulls(a: BaseEntity, b: BaseEntity)
    requires a.ref != b.ref && a.cls == b.cls && HashCode(a) == HashCode(b)
    requires a.id.None? || (a.id == b.id && a.version.None?)
    ensures Equals(a, Some(b)) == ThrowsNullPointer
  {
  }

  /**
   * Comparing two distinct, not yet persisted entities of one class throws instead of answering
   * false: both ids are null, so the hashes agree and `id.equals` dereferences null.
   */
  lemma {:induction false} EqualsThrowsOnUnsavedEntities(a: BaseEntity, b: BaseEntity)
    requires a.ref != b.ref && a.cls == b.cls && a.id.None? && b.id.None?
    ensures Equals(a, Some(b)) == ThrowsNullPointer
  {
    assert HashCode(a) == a.cls.identityHash == HashCode(b);
  }

  /** `equals` as written is not symmetric: a persisted entity with id 0 and an unsaved one of its class. */
  lemma EqualsNotSymmetric(cls: ClassTag)
    ensures var saved := BaseEntity(1, cls, Some(0), Some(0), None, None, map[]);
            var unsaved := BaseEntity(2, cls, None, None, None, None, map[]);
            Equals(saved, Some(unsaved)) == Returns(false) && Equals(unsaved, Some(saved)) == ThrowsNullPointer
  {
    var saved := BaseEntity(1, cls, Some(0), Some(0), None, None, map[]);
    assert LongHashCode(0) == 0;
    assert HashCode(saved) == cls.identityHash;
  }

  /**
   * The evident intent: the same object, or two objects of one class that both carry the same
   * non-null id and the same version. Never throws.
   */
  function EqualsNullSafe(e: BaseEntity, that: Option<BaseEntity>): (r: bool)
    ensures r ==> that.Some? && (e.ref == that.value.ref || HashCode(e) == HashCode(that.value))
  {
    that.Some? &&
    (e.ref == that.value.ref ||
     (e.cls == that.value.cls && e.id.Some? && e.id == that.value.id &&
      e.version == that.value.version))
  }

  /** One heap: the same reference always denotes the same state. */
  predicate SameHeap(a: BaseEntity, b: BaseEntity) {
    a.ref == b.ref ==> a == b
  }

  /** The corrected equality is reflexive, symmetric and consistent with `hashCode`. */
  lemma EqualsNullSafeIsEquality(a: BaseEntity, b: BaseEntity)
    requires SameHeap(a, b)
    ensures EqualsNullSafe(a, Some(a))
    ensures EqualsNullSafe(a, Some(b)) == EqualsNullSafe(b, Some(a))
    ensures EqualsNullSafe(a, Some(b)) ==> HashCode(a) == HashCode(b)
    ensures !EqualsNullSafe(a, None)
  {
  }

  /** The corrected equality is transitive. */
  lemma EqualsNullSafeTransitive(a: BaseEntity, b: BaseEntity, c: BaseEntity)
    requires SameHeap(a, b) && SameHeap(b, c)
    requires EqualsNullSafe(a, Some(b)) && EqualsNullSafe(b, Some(c))
    ensures EqualsNullSafe(a, Some(c))
  {
  }

  /** Wherever `equals` as written returns, the corrected equality gives the same answer. */
  lemma EqualsNullSafeAgrees(a: BaseEntity, that: Option<BaseEntity>)
    requires Equals(a, that).Returns?
    ensures EqualsNullSafe(a, that) == Equals(a, that).value
  {
  }
}
