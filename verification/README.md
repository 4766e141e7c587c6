# Deduplicator model

A model of OpenTripPlanner's `Deduplicator`. It works like `String.intern`, but for many
kinds of value: `int[]`, `String`, `BitSet`, `String[]`, `URL`, `TimeZone`, `Locale`,
`LocalDate`, and Guava `Optional` wrappers of these. It also handles optional `Integer`,
`Double` and `Boolean`. Each `deduplicate*` call does one of three things:

- it passes null through (`absent()` for the optional kinds);
- it returns the stored canonical instance that is content-equal to the argument;
- or it stores the argument as its own canonical instance. Strings store a fresh copy instead.

`reset` empties all fifteen stores.

## Structure

- `objects.dfy` (`Objects`): the Java object model. A `Ref` pairs an object's identity
  (what `==` compares) with its content (what `equals` compares). `None` is null, and
  `Optional` is Guava's wrapper, whose present values are objects with an identity.
  `int32` is Java's `int`. A `String`'s content is its sequence of UTF-16 code units
  (`char16`), lone surrogates included. `URL`, `TimeZone`, `Locale`, `LocalDate`, `BitSet` and `double`
  are opaque types with equality.
- `stores.dfy` (`Stores`): the get-or-insert step on a self-store, an optional store and a
  by-value optional store, written once for every content type.
- `deduplication.dfy` (`Deduplication`): the state holds the fifteen stores plus an identity
  counter, and there is one pure function per Java method. Each returns the result and the
  new state. The store invariant `Valid` has two parts: every stored key equals its value's
  content, and every held identity is below the counter.
- `properties.dfy` (`Properties`): two-call uniqueness in both directions, reset,
  the boolean constants, and string-array element sharing.
- `runs.dfy` (`Runs`): arbitrary sequences of calls. The invariant holds in every reachable
  state. Stores only grow until a reset. Once an instance is canonical it is returned for
  every later equal argument.

Each Java method is `synchronized`, so every call runs as one atomic step. An execution with
concurrent callers is therefore a sequence of whole calls, and `Runs` covers every such
sequence. `Runs.ReachableIsValid` shows that `Valid` holds in every state reachable from a
new deduplicator. The lemmas that assume `Valid` therefore apply to every state a real
execution reaches, provided callers keep the condition stated first under "Left out":
they never mutate an object they passed in or got back.

Identities of objects the deduplicator creates come from the counter `nextId`: the string
copy, the `Optional` wrappers and the new `String[]`. When a store keeps a caller's object,
the counter is raised past that object's identity. A created object therefore differs from
the argument and from every stored object. The two static `Optional<Boolean>` constants
have identities 0 and 1, and fresh identities start at 2.

Three details of the code:

- There is no optional-boolean store. `deduplicateOptionalBoolean` returns one of the two
  static constants (Deduplicator.java:35-36, 145).
- On a miss `deduplicateString` stores a fresh copy, not the argument (line 90).
- On a miss `deduplicateStringArray` stores a new array of canonical strings, not the
  argument (lines 120, 253).

## Model

| member | source | states |
|---|---|---|
| Stores.Intern | src/main/java/org/opentripplanner/routing/trippattern/Deduplicator.java:75-94 | Get-or-insert on a self-store keyed by content. On a hit it returns the stored instance and changes nothing. On a miss it adds exactly one entry: the argument itself, or under the copy policy a fresh object with equal content and an identity no stored object has. The store keeps mapping every key to an instance with that content. |
| Stores.InternOptional | src/main/java/org/opentripplanner/routing/trippattern/Deduplicator.java:96-104 | Get-or-insert on an optional store. On a miss, the base store changes exactly as interning the value there would, and a fresh present wrapper holds the base store's canonical instance. The key-to-present-wrapper and wrapper-holds-base-instance invariants are kept. |
| Stores.InternValue | src/main/java/org/opentripplanner/routing/trippattern/Deduplicator.java:126-133 | Get-or-insert on an optional store of a by-value kind: the stored wrapper on a hit, a fresh present wrapper of the value on a miss. Every key keeps mapping to a present wrapper of itself. |
| Deduplication.Empty | src/main/java/org/opentripplanner/routing/trippattern/Deduplicator.java:39-53 | A new deduplicator has all fifteen stores empty and satisfies the store invariant. |
| Deduplication.Reset | src/main/java/org/opentripplanner/routing/trippattern/Deduplicator.java:56-72 | After reset all fifteen stores are empty and the invariant still holds. The identity counter is kept, so an object the deduplicator creates after the reset has an identity different from every object it created before. |
| Deduplication.DeduplicateIntArray | src/main/java/org/opentripplanner/routing/trippattern/Deduplicator.java:75-84 | Null gives null and no change. A hit returns the stored array and changes nothing. A miss stores the argument array itself under its contents. The result has the argument's contents. Only the int-array store changes, and no entry is lost. |
| Deduplication.DeduplicateString | src/main/java/org/opentripplanner/routing/trippattern/Deduplicator.java:86-94 | Null gives null. A hit returns the stored string. A miss stores a fresh copy with equal content whose identity differs from the argument and from every stored object. Only the string store changes. |
| Deduplication.DeduplicateOptionalString | src/main/java/org/opentripplanner/routing/trippattern/Deduplicator.java:96-104 | Null gives absent and no change. A hit returns the stored wrapper. On a miss the string store ends as `DeduplicateString` leaves it, a fresh wrapper holds the instance that call returns, and the optional store gains exactly that one entry. The result wraps the string store's canonical instance for the argument. |
| Deduplication.DeduplicateBitSet | src/main/java/org/opentripplanner/routing/trippattern/Deduplicator.java:106-114 | Null gives null. A hit returns the stored bit set. A miss stores the argument itself. Only the bit-set store changes. |
| Deduplication.DeduplicateStringArray | src/main/java/org/opentripplanner/routing/trippattern/Deduplicator.java:116-124 | Null gives null. The lookup uses the raw array's element-wise contents. On a miss exactly one entry is added: a fresh array holding the elements `DeduplicateElements` returns. The result has the argument's length and element contents, and every non-null element is the canonical string. |
| Deduplication.DeduplicateElements | src/main/java/org/opentripplanner/routing/trippattern/Deduplicator.java:251-258 | The element loop keeps the length and the element contents, so nulls stay null. Every non-null element of the result is the string store's canonical instance, The string store gains exactly the contents of the non-null elements, and nothing else changes except the identity counter. |
| Deduplication.DeduplicateOptionalInteger | src/main/java/org/opentripplanner/routing/trippattern/Deduplicator.java:126-133 | Returns the stored wrapper for the int, or on a miss stores a fresh present wrapper of it. The result is a present wrapper of the argument. |
| Deduplication.DeduplicateOptionalDouble | src/main/java/org/opentripplanner/routing/trippattern/Deduplicator.java:135-142 | The same as for integers, keyed on an opaque double value. |
| Deduplication.DeduplicateOptionalBoolean | src/main/java/org/opentripplanner/routing/trippattern/Deduplicator.java:144-146 | Returns a present wrapper of the argument that is one of the two static constants, never a fresh object. It takes no state, so no store is read or written. |
| Deduplication.DeduplicateUrl | src/main/java/org/opentripplanner/routing/trippattern/Deduplicator.java:148-156 | Null gives null. A hit returns the stored URL. A miss stores the argument itself. Only the URL store changes. |
| Deduplication.DeduplicateOptionalUrl | src/main/java/org/opentripplanner/routing/trippattern/Deduplicator.java:158-166 | Null gives absent. A hit returns the stored wrapper. A miss canonicalises through `DeduplicateUrl`, wraps its result in a fresh wrapper, and adds exactly that one entry to the optional store. |
| Deduplication.DeduplicateTz | src/main/java/org/opentripplanner/routing/trippattern/Deduplicator.java:168-176 | Null gives null. A hit returns the stored time zone. A miss stores the argument itself. Only the time-zone store changes. |
| Deduplication.DeduplicateOptionalTz | src/main/java/org/opentripplanner/routing/trippattern/Deduplicator.java:178-186 | Null gives absent. A hit returns the stored wrapper. A miss canonicalises through `DeduplicateTz`, wraps its result in a fresh wrapper, and adds exactly that one entry to the optional store. |
| Deduplication.DeduplicateLang | src/main/java/org/opentripplanner/routing/trippattern/Deduplicator.java:188-196 | Null gives null. A hit returns the stored locale. A miss stores the argument itself. Only the locale store changes. |
| Deduplication.DeduplicateOptionalLang | src/main/java/org/opentripplanner/routing/trippattern/Deduplicator.java:198-206 | Null gives absent. A hit returns the stored wrapper. A miss canonicalises through `DeduplicateLang`, wraps its result in a fresh wrapper, and adds exactly that one entry to the optional store. |
| Deduplication.DeduplicateDate | src/main/java/org/opentripplanner/routing/trippattern/Deduplicator.java:208-216 | Null gives null. A hit returns the stored date. A miss stores the argument itself. Only the date store changes. |
| Deduplication.DeduplicateOptionalDate | src/main/java/org/opentripplanner/routing/trippattern/Deduplicator.java:218-226 | Null gives absent. A hit returns the stored wrapper. A miss canonicalises through `DeduplicateDate`, wraps its result in a fresh wrapper, and adds exactly that one entry to the optional store. |
| Properties.IntArraySameInstanceIffEqual | src/main/java/org/opentripplanner/routing/trippattern/Deduplicator.java:236-239 | Two successive calls return the identical instance if and only if the arguments are content-equal or both null. When they are, the second call leaves the state unchanged. This gives idempotence and uniqueness. |
| Properties.StringSameInstanceIffEqual | src/main/java/org/opentripplanner/routing/trippattern/Deduplicator.java:86-94 | Two successive calls return the identical instance if and only if the arguments are content-equal or both null. When they are, the second call leaves the state unchanged. This gives idempotence and uniqueness. |
| Properties.BitSetSameInstanceIffEqual | src/main/java/org/opentripplanner/routing/trippattern/Deduplicator.java:106-114 | Two successive calls return the identical instance if and only if the arguments are content-equal or both null. When they are, the second call leaves the state unchanged. This gives idempotence and uniqueness. |
| Properties.UrlSameInstanceIffEqual | src/main/java/org/opentripplanner/routing/trippattern/Deduplicator.java:148-156 | Two successive calls return the identical instance if and only if the arguments are content-equal or both null. When they are, the second call leaves the state unchanged. This gives idempotence and uniqueness. |
| Properties.TzSameInstanceIffEqual | src/main/java/org/opentripplanner/routing/trippattern/Deduplicator.java:168-176 | Two successive calls return the identical instance if and only if the arguments are content-equal or both null. When they are, the second call leaves the state unchanged. This gives idempotence and uniqueness. |
| Properties.LangSameInstanceIffEqual | src/main/java/org/opentripplanner/routing/trippattern/Deduplicator.java:188-196 | Two successive calls return the identical instance if and only if the arguments are content-equal or both null. When they are, the second call leaves the state unchanged. This gives idempotence and uniqueness. |
| Properties.DateSameInstanceIffEqual | src/main/java/org/opentripplanner/routing/trippattern/Deduplicator.java:208-216 | Two successive calls return the identical instance if and only if the arguments are content-equal or both null. When they are, the second call leaves the state unchanged. This gives idempotence and uniqueness. |
| Properties.OptionalStringSameInstanceIffEqual | src/main/java/org/opentripplanner/routing/trippattern/Deduplicator.java:96-104 | Two successive calls return the identical instance if and only if the arguments are content-equal or both null. When they are, the second call leaves the state unchanged. This gives idempotence and uniqueness. |
| Properties.OptionalUrlSameInstanceIffEqual | src/main/java/org/opentripplanner/routing/trippattern/Deduplicator.java:158-166 | Two successive calls return the identical instance if and only if the arguments are content-equal or both null. When they are, the second call leaves the state unchanged. This gives idempotence and uniqueness. |
| Properties.OptionalTzSameInstanceIffEqual | src/main/java/org/opentripplanner/routing/trippattern/Deduplicator.java:178-186 | Two successive calls return the identical instance if and only if the arguments are content-equal or both null. When they are, the second call leaves the state unchanged. This gives idempotence and uniqueness. |
| Properties.OptionalLangSameInstanceIffEqual | src/main/java/org/opentripplanner/routing/trippattern/Deduplicator.java:198-206 | Two successive calls return the identical instance if and only if the arguments are content-equal or both null. When they are, the second call leaves the state unchanged. This gives idempotence and uniqueness. |
| Properties.OptionalDateSameInstanceIffEqual | src/main/java/org/opentripplanner/routing/trippattern/Deduplicator.java:218-226 | Two successive calls return the identical instance if and only if the arguments are content-equal or both null. When they are, the second call leaves the state unchanged. This gives idempotence and uniqueness. |
| Properties.OptionalIntegerSameInstanceIffEqual | src/main/java/org/opentripplanner/routing/trippattern/Deduplicator.java:126-133 | Two successive calls return the identical wrapper if and only if the ints are equal, and then the second call changes nothing. |
| Properties.OptionalDoubleSameInstanceIffEqual | src/main/java/org/opentripplanner/routing/trippattern/Deduplicator.java:135-142 | Two successive calls return the identical wrapper if and only if the doubles are equal, and then the second call changes nothing. |
| Properties.StringArraySameInstanceIffEqual | src/main/java/org/opentripplanner/routing/trippattern/Deduplicator.java:260-263 | Two successive calls return the identical array if and only if both are null, or both have equal length and equal elements in the same order. When they are equal, the second call changes nothing. |
| Properties.OptionalBooleanSingletons | src/main/java/org/opentripplanner/routing/trippattern/Deduplicator.java:35-36 | The two constants are distinct, and each argument value always gets the same one. |
| Properties.ResetForgetsIntArray | src/main/java/org/opentripplanner/routing/trippattern/Deduplicator.java:56-72 | After reset an int array is a miss: the argument itself becomes the only entry. |
| Properties.ResetForgetsString | src/main/java/org/opentripplanner/routing/trippattern/Deduplicator.java:56-72 | After reset a string is a miss: a new instance becomes the only entry, distinct from the instance that was canonical before the reset. |
| Properties.ResetForgetsOptionalString | src/main/java/org/opentripplanner/routing/trippattern/Deduplicator.java:56-72 | After reset an optional string is a miss: a new wrapper becomes the only entry, distinct from the pre-reset wrapper. |
| Properties.StringArrayElementsShared | src/main/java/org/opentripplanner/routing/trippattern/Deduplicator.java:251-256 | Each non-null element of a canonical string array is the instance a later `deduplicateString` of an equal string returns, and that call changes nothing. |
| Properties.StringArraysShareElements | src/main/java/org/opentripplanner/routing/trippattern/Deduplicator.java:120-121 | Two string arrays deduplicated one after the other hold the identical instance for equal elements. |
| Runs.Apply | src/main/java/org/opentripplanner/routing/trippattern/Deduplicator.java:56-226 | Every call keeps the store invariant. Every call other than reset removes and replaces no entry of any store. |
| Runs.RunPreservesValid | src/main/java/org/opentripplanner/routing/trippattern/Deduplicator.java:75-226 | The store invariant holds after any sequence of calls: keys equal values, optionals wrap the base instance, string-array elements are canonical, and all identities are allocated. |
| Runs.ReachableIsValid | src/main/java/org/opentripplanner/routing/trippattern/Deduplicator.java:39-53 | Every state reachable from a new deduplicator satisfies the store invariant. |
| Runs.RunWithoutResetGrows | src/main/java/org/opentripplanner/routing/trippattern/Deduplicator.java:75-226 | A sequence of calls without reset never removes or replaces an entry of any store. |
| Runs.IntArrayCanonicalPersists | src/main/java/org/opentripplanner/routing/trippattern/Deduplicator.java:78-83 | Once an instance has been returned, every later call with an equal argument returns that same instance and changes nothing. This holds after any interleaving of other calls without reset, which is the exactly-once guarantee the lock gives concurrent callers. |
| Runs.StringCanonicalPersists | src/main/java/org/opentripplanner/routing/trippattern/Deduplicator.java:88-93 | Once an instance has been returned, every later call with an equal argument returns that same instance and changes nothing. This holds after any interleaving of other calls without reset, which is the exactly-once guarantee the lock gives concurrent callers. |
| Runs.OptionalStringCanonicalPersists | src/main/java/org/opentripplanner/routing/trippattern/Deduplicator.java:98-103 | Once an instance has been returned, every later call with an equal argument returns that same instance and changes nothing. This holds after any interleaving of other calls without reset, which is the exactly-once guarantee the lock gives concurrent callers. |
| Runs.BitSetCanonicalPersists | src/main/java/org/opentripplanner/routing/trippattern/Deduplicator.java:108-113 | Once an instance has been returned, every later call with an equal argument returns that same instance and changes nothing. This holds after any interleaving of other calls without reset, which is the exactly-once guarantee the lock gives concurrent callers. |
| Runs.UrlCanonicalPersists | src/main/java/org/opentripplanner/routing/trippattern/Deduplicator.java:150-155 | Once an instance has been returned, every later call with an equal argument returns that same instance and changes nothing. This holds after any interleaving of other calls without reset, which is the exactly-once guarantee the lock gives concurrent callers. |
| Runs.OptionalUrlCanonicalPersists | src/main/java/org/opentripplanner/routing/trippattern/Deduplicator.java:160-165 | Once an instance has been returned, every later call with an equal argument returns that same instance and changes nothing. This holds after any interleaving of other calls without reset, which is the exactly-once guarantee the lock gives concurrent callers. |
| Runs.TzCanonicalPersists | src/main/java/org/opentripplanner/routing/trippattern/Deduplicator.java:170-175 | Once an instance has been returned, every later call with an equal argument returns that same instance and changes nothing. This holds after any interleaving of other calls without reset, which is the exactly-once guarantee the lock gives concurrent callers. |
| Runs.OptionalTzCanonicalPersists | src/main/java/org/opentripplanner/routing/trippattern/Deduplicator.java:180-185 | Once an instance has been returned, every later call with an equal argument returns that same instance and changes nothing. This holds after any interleaving of other calls without reset, which is the exactly-once guarantee the lock gives concurrent callers. |
| Runs.LangCanonicalPersists | src/main/java/org/opentripplanner/routing/trippattern/Deduplicator.java:190-195 | Once an instance has been returned, every later call with an equal argument returns that same instance and changes nothing. This holds after any interleaving of other calls without reset, which is the exactly-once guarantee the lock gives concurrent callers. |
| Runs.OptionalLangCanonicalPersists | src/main/java/org/opentripplanner/routing/trippattern/Deduplicator.java:200-205 | Once an instance has been returned, every later call with an equal argument returns that same instance and changes nothing. This holds after any interleaving of other calls without reset, which is the exactly-once guarantee the lock gives concurrent callers. |
| Runs.DateCanonicalPersists | src/main/java/org/opentripplanner/routing/trippattern/Deduplicator.java:210-215 | Once an instance has been returned, every later call with an equal argument returns that same instance and changes nothing. This holds after any interleaving of other calls without reset, which is the exactly-once guarantee the lock gives concurrent callers. |
| Runs.OptionalDateCanonicalPersists | src/main/java/org/opentripplanner/routing/trippattern/Deduplicator.java:220-225 | Once an instance has been returned, every later call with an equal argument returns that same instance and changes nothing. This holds after any interleaving of other calls without reset, which is the exactly-once guarantee the lock gives concurrent callers. |
| Runs.OptionalIntegerCanonicalPersists | src/main/java/org/opentripplanner/routing/trippattern/Deduplicator.java:127-132 | Once an instance has been returned, every later call with an equal argument returns that same instance and changes nothing. This holds after any interleaving of other calls without reset, which is the exactly-once guarantee the lock gives concurrent callers. |
| Runs.OptionalDoubleCanonicalPersists | src/main/java/org/opentripplanner/routing/trippattern/Deduplicator.java:136-141 | Once an instance has been returned, every later call with an equal argument returns that same instance and changes nothing. This holds after any interleaving of other calls without reset, which is the exactly-once guarantee the lock gives concurrent callers. |
| Runs.StringArrayCanonicalPersists | src/main/java/org/opentripplanner/routing/trippattern/Deduplicator.java:118-123 | Once an instance has been returned, every later call with an equal argument returns that same instance and changes nothing. This holds after any interleaving of other calls without reset, which is the exactly-once guarantee the lock gives concurrent callers. |

## Left out

- Mutation and aliasing: objects are immutable values here. The code stores the caller's own `int[]`, `BitSet` and `TimeZone`, all mutable, and hands out its stored arrays. A caller that mutates such an object afterwards breaks the store: a later lookup may miss where the model reports a hit. The model assumes callers never mutate an object they passed in or got back. It also assumes that one identity always carries one content. Identities of caller objects are not constrained, so the model does not promise that they are distinct from each other.
- `TestAStar.java` is a routing integration test that reads feed files and builds a graph; it does not exercise the deduplicator and is not part of this model.
- Locking and thread interleavings: each `synchronized` method is one atomic step, and `Runs` quantifies over all sequences of such steps.
- `hashCode` of the `IntArray`/`StringArray` wrappers and `HashMap` internals: stores are maps keyed by content, which is what `equals` plus a consistent `hashCode` give.
- The identity of the `IntArray`/`StringArray` wrapper objects themselves: only their `array` field is ever returned, so only the array's identity is modelled.
- The real `equals` of `URL` (which may resolve host names), `TimeZone`, `Locale`, `LocalDate` and `BitSet`: they are opaque types with decidable equality.
- Deduplication.DeduplicateOptionalDouble: `double` is an opaque type with equality. `Double.equals` treats NaN as equal to itself and tells 0.0 from -0.0, and that floating-point equality is not modelled.
- Autoboxing: `Optional.of(original)` for `int` and `double` boxes the value, and the identity of the box (including the `Integer` cache) is not modelled; the wrapper holds the value itself.
- `Serializable`, `serialVersionUID`, and the substring-trimming purpose of copying a string: the copy is modelled only as a fresh object with equal content.
- Running out of memory, the only failure the code can meet, is not modelled.
