/**
 Java's object model, reduced to what the deduplicator can observe.

 A Java reference is either null or points at a heap object. Two references are `==`
 when they point at the same object (same identity); `equals` compares contents. A
 `Ref` pairs the two, so "returns the stored instance rather than the argument" is
 visible as a difference in `id` between content-equal objects.
 */
module Objects {

  /** Identity of a heap object: what Java's `==` compares on references. */
  type Id = nat

  /** A heap object: its identity and its content (what `equals` compares). */
  datatype Ref<+T> = Ref(id: Id, val: T)

  /** A nullable reference: `None` is Java's `null`. */
  datatype Option<+T> = None | Some(value: T)

  /** Guava's `Optional`. `absent()` is a stateless marker; a present optional is a heap
      object of its own, with an identity, holding `get`. */
  datatype Optional<+T> = Absent | Present(id: Id, get: T)

  /** Java's `int`. The deduplicator does no arithmetic on it; only its range matters. */
  newtype int32 = x: int | -0x8000_0000 <= x < 0x8000_0000

  /** Java's `char`: a UTF-16 code unit, lone surrogates included. */
  newtype char16 = c: int | 0 <= c < 0x1_0000

  /** The content of a Java `String`: its sequence of UTF-16 code units. */
  type JavaString = seq<char16>

  /** Library value classes whose `equals` the deduplicator relies on but does not define.
      Only decidable equality is assumed of them. */
  type BitSet(==)
  type Url(==)
  type TimeZone(==)
  type Locale(==)
  type LocalDate(==)
  type Double(==)

  /** What `equals` sees of a nullable reference: null, or the object's content. */
  function Content<T>(x: Option<Ref<T>>): (c: Option<T>)
    ensures c.None? <==> x.None?
    ensures x.Some? ==> c.value == x.value.val
  {
    match x
    case None => None
    case Some(r) => Some(r.val)
  }

  /** Element-wise content of a `String[]`: what `Arrays.equals` compares. */
  function Contents(a: seq<Option<Ref<JavaString>>>): (c: seq<Option<JavaString>>)
    ensures |c| == |a|
    ensures forall i | 0 <= i < |a| :: c[i] == Content(a[i])
  {
    seq(|a|, i requires 0 <= i < |a| => Content(a[i]))
  }

  /** What `Arrays.equals` sees of a nullable `String[]` reference. */
  function ArrayContent(x: Option<Ref<seq<Option<Ref<JavaString>>>>>): (c: Option<seq<Option<JavaString>>>)
    ensures c.None? <==> x.None?
    ensures x.Some? ==> c.value == Contents(x.value.val)
  {
    match x
    case None => None
    case Some(a) => Some(Contents(a.val))
  }

  /** The least identity bound that is at least `nextId` and exceeds `id`: raising the
      allocator past an object that a store is about to hold. */
  function Past(nextId: nat, id: Id): (n: nat)
    ensures nextId <= n && id < n
    ensures n == nextId || n == id + 1
  {
    if id < nextId then nextId else id + 1
  }
}
