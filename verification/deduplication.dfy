/**
 The deduplicator: fifteen canonical stores, one per kind of value, and one operation per
 kind that returns the shared canonical instance for its argument.

 The state is immutable; every operation returns its result together with the new state.
 Each Java method body runs under the object's lock, so one call is one atomic step here.
 Identities of objects the deduplicator creates come from `nextId`: every identity a store
 holds is below it, so a fresh object is distinct from everything stored.
 */
module Deduplication {
  import opened Objects
  import opened Stores

  /** The contents of a `String[]`: nullable references to strings. */
  type StringArray = seq<Option<Ref<JavaString>>>

  /** Identities of the two static `Optional<Boolean>` constants, allocated at class load. */
  const TrueId: Id := 0
  const FalseId: Id := 1
  /** The first identity available to objects the deduplicator creates. */
  const FirstFreshId: nat := 2

  datatype Deduplicator = Deduplicator(
    intArrays: map<seq<int32>, Ref<seq<int32>>>,
    strings: map<JavaString, Ref<JavaString>>,
    optionalStrings: map<JavaString, Optional<Ref<JavaString>>>,
    bitSets: map<BitSet, Ref<BitSet>>,
    stringArrays: map<seq<Option<JavaString>>, Ref<StringArray>>,
    optionalIntegers: map<int32, Optional<int32>>,
    optionalDoubles: map<Double, Optional<Double>>,
    urls: map<Url, Ref<Url>>,
    optionalUrls: map<Url, Optional<Ref<Url>>>,
    tzs: map<TimeZone, Ref<TimeZone>>,
    optionalTzs: map<TimeZone, Optional<Ref<TimeZone>>>,
    langs: map<Locale, Ref<Locale>>,
    optionalLangs: map<Locale, Optional<Ref<Locale>>>,
    dates: map<LocalDate, Ref<LocalDate>>,
    optionalDates: map<LocalDate, Optional<Ref<LocalDate>>>,
    nextId: nat)

  /** The result of an operation together with the state after it. */
  datatype Out<R> = Out(value: R, state: Deduplicator)

  /** Every non-null element of a stored `String[]` is the canonical instance of its string. */
  ghost predicate ElementsCanonical(a: StringArray, strings: map<JavaString, Ref<JavaString>>) {
    forall i | 0 <= i < |a| && a[i].Some? :: a[i].value.val in strings && strings[a[i].value.val] == a[i].value
  }

  /** Every stored `String[]` has the element-wise content of its key and canonical elements. */
  ghost predicate ArraysKeyed(sa: map<seq<Option<JavaString>>, Ref<StringArray>>, strings: map<JavaString, Ref<JavaString>>) {
    forall k | k in sa :: Contents(sa[k].val) == k && ElementsCanonical(sa[k].val, strings)
  }

  /** The key-equals-value invariant of all fifteen stores. */
  ghost predicate Keyed(d: Deduplicator) {
    && SelfKeyed(d.intArrays) && SelfKeyed(d.strings) && SelfKeyed(d.bitSets) && SelfKeyed(d.urls)
    && SelfKeyed(d.tzs) && SelfKeyed(d.langs) && SelfKeyed(d.dates)
    && WrapsBase(d.optionalStrings, d.strings) && WrapsBase(d.optionalUrls, d.urls)
    && WrapsBase(d.optionalTzs, d.tzs) && WrapsBase(d.optionalLangs, d.langs)
    && WrapsBase(d.optionalDates, d.dates)
    && ValueKeyed(d.optionalIntegers) && ValueKeyed(d.optionalDoubles)
    && ArraysKeyed(d.stringArrays, d.strings)
  }

  /** Every object a store holds has an identity below `nextId`. */
  ghost predicate Allocated(d: Deduplicator) {
    && FirstFreshId <= d.nextId
    && RefsBelow(d.intArrays, d.nextId) && RefsBelow(d.strings, d.nextId) && RefsBelow(d.bitSets, d.nextId)
    && RefsBelow(d.stringArrays, d.nextId) && RefsBelow(d.urls, d.nextId) && RefsBelow(d.tzs, d.nextId)
    && RefsBelow(d.langs, d.nextId) && RefsBelow(d.dates, d.nextId)
    && WrappersBelow(d.optionalStrings, d.nextId) && WrappersBelow(d.optionalIntegers, d.nextId)
    && WrappersBelow(d.optionalDoubles, d.nextId) && WrappersBelow(d.optionalUrls, d.nextId)
    && WrappersBelow(d.optionalTzs, d.nextId) && WrappersBelow(d.optionalLangs, d.nextId)
    && WrappersBelow(d.optionalDates, d.nextId)
  }

  ghost predicate Valid(d: Deduplicator) {
    Keyed(d) && Allocated(d)
  }

  ghost predicate IsEmpty(d: Deduplicator) {
    && d.intArrays == map[] && d.strings == map[] && d.optionalStrings == map[]
    && d.bitSets == map[] && d.stringArrays == map[] && d.optionalIntegers == map[]
    && d.optionalDoubles == map[] && d.urls == map[] && d.optionalUrls == map[]
    && d.tzs == map[] && d.optionalTzs == map[] && d.langs == map[]
    && d.optionalLangs == map[] && d.dates == map[] && d.optionalDates == map[]
  }

  /** No store of `d` lost or changed an entry in `d'`, and no identity was handed back. */
  ghost predicate Grows(d: Deduplicator, d': Deduplicator) {
    && Retains(d.intArrays, d'.intArrays) && Retains(d.strings, d'.strings)
    && Retains(d.optionalStrings, d'.optionalStrings) && Retains(d.bitSets, d'.bitSets)
    && Retains(d.stringArrays, d'.stringArrays) && Retains(d.optionalIntegers, d'.optionalIntegers)
    && Retains(d.optionalDoubles, d'.optionalDoubles) && Retains(d.urls, d'.urls)
    && Retains(d.optionalUrls, d'.optionalUrls) && Retains(d.tzs, d'.tzs)
    && Retains(d.optionalTzs, d'.optionalTzs) && Retains(d.langs, d'.langs)
    && Retains(d.optionalLangs, d'.optionalLangs) && Retains(d.dates, d'.dates)
    && Retains(d.optionalDates, d'.optionalDates)
    && d.nextId <= d'.nextId
  }

  /** A newly constructed deduplicator: every store empty. */
  function Empty(): (d: Deduplicator)
    ensures IsEmpty(d) && Valid(d)
  {
    Deduplicator(map[], map[], map[], map[], map[], map[], map[], map[], map[], map[], map[], map[],
                 map[], map[], map[], FirstFreshId)
  }

  /** `reset`: clear every store. Identities are not reused, so objects created after a
      reset are distinct from every object created before it. */
  function Reset(d: Deduplicator): (r: Deduplicator)
    ensures IsEmpty(r) && r.nextId == d.nextId
    ensures Valid(d) ==> Valid(r)
  {
    d.(intArrays := map[], strings := map[], optionalStrings := map[], bitSets := map[],
       stringArrays := map[], optionalIntegers := map[], optionalDoubles := map[],
       urls := map[], optionalUrls := map[], tzs := map[], optionalTzs := map[],
       langs := map[], optionalLangs := map[], dates := map[], optionalDates := map[])
  }

  /** `deduplicateIntArray`: null passes through; otherwise the stored `int[]` content-equal to
      the argument, or, on a miss, the argument itself, which becomes canonical. */
  function DeduplicateIntArray(d: Deduplicator, x: Option<Ref<seq<int32>>>): (r: Out<Option<Ref<seq<int32>>>>)
    ensures x.None? ==> r == Out(None, d)
    ensures x.Some? ==> r.value.Some? && x.value.val in r.state.intArrays && r.state.intArrays[x.value.val] == r.value.value
    ensures x.Some? && x.value.val in d.intArrays ==> r == Out(Some(d.intArrays[x.value.val]), d)
    ensures x.Some? && x.value.val !in d.intArrays ==> r.value == x && r.state.intArrays == d.intArrays[x.value.val := x.value]
    ensures r.state == d.(intArrays := r.state.intArrays, nextId := r.state.nextId)
    ensures Grows(d, r.state)
    ensures Valid(d) ==> Valid(r.state) && Content(r.value) == Content(x)
  {
    match x
    case None => Out(None, d)
    case Some(o) =>
      var i := Intern(d.intArrays, d.nextId, o, KeepArgument);
      Out(Some(i.canonical), d.(intArrays := i.store, nextId := i.nextId))
  }

  /** `deduplicateString`: null passes through; otherwise the stored string equal to the
      argument, or, on a miss, a fresh copy of it, which becomes canonical. */
  function DeduplicateString(d: Deduplicator, x: Option<Ref<JavaString>>): (r: Out<Option<Ref<JavaString>>>)
    ensures x.None? ==> r == Out(None, d)
    ensures x.Some? ==> r.value.Some? && x.value.val in r.state.strings && r.state.strings[x.value.val] == r.value.value
    ensures x.Some? ==> r.state.strings.Keys == d.strings.Keys + {x.value.val}
    ensures x.Some? && x.value.val in d.strings ==> r == Out(Some(d.strings[x.value.val]), d)
    ensures x.Some? && x.value.val !in d.strings ==>
              && r.value.Some? && r.value.value.val == x.value.val
              && d.nextId <= r.value.value.id && r.value.value.id != x.value.id
              && r.state.strings == d.strings[x.value.val := r.value.value]
    ensures r.state == d.(strings := r.state.strings, nextId := r.state.nextId)
    ensures Grows(d, r.state)
    ensures Valid(d) ==> Valid(r.state) && Content(r.value) == Content(x)
  {
    match x
    case None => Out(None, d)
    case Some(o) =>
      var i := Intern(d.strings, d.nextId, o, StoreCopy);
      Out(Some(i.canonical), d.(strings := i.store, nextId := i.nextId))
  }

  /** `deduplicateOptionalString`: null gives `absent()`; otherwise the stored `Optional`
      for the argument's content, or, on a miss, a fresh `Optional` wrapping what
      `deduplicateString` returns for the argument. */
  function DeduplicateOptionalString(d: Deduplicator, x: Option<Ref<JavaString>>): (r: Out<Optional<Ref<JavaString>>>)
    ensures x.None? ==> r == Out(Absent, d)
    ensures x.Some? && x.value.val in d.optionalStrings ==> r == Out(d.optionalStrings[x.value.val], d)
    ensures x.Some? && x.value.val !in d.optionalStrings ==>
              var b := DeduplicateString(d, x);
              && r.value.Present? && b.value == Some(r.value.get)
              && r.state.strings == b.state.strings
              && d.nextId <= r.value.id && r.value.id != x.value.id
    ensures r.state == d.(strings := r.state.strings, optionalStrings := r.state.optionalStrings, nextId := r.state.nextId)
    ensures Valid(d) ==> Valid(r.state) && Grows(d, r.state)
    ensures Valid(d) && x.Some? ==>
              && r.value.Present? && r.value.get.val == x.value.val
              && x.value.val in r.state.strings && r.value.get == r.state.strings[x.value.val]
              && x.value.val in r.state.optionalStrings && r.state.optionalStrings[x.value.val] == r.value
    ensures Valid(d) && x.Some? && x.value.val !in d.optionalStrings ==> r.state.optionalStrings == d.optionalStrings[x.value.val := r.value]
  {
    match x
    case None => Out(Absent, d)
    case Some(o) =>
      var i := InternOptional(d.optionalStrings, d.strings, d.nextId, o, StoreCopy);
      Out(i.wrapper, d.(strings := i.base, optionalStrings := i.optional, nextId := i.nextId))
  }

  /** `deduplicateBitSet`: null passes through; otherwise the stored `BitSet` content-equal to
      the argument, or, on a miss, the argument itself, which becomes canonical. */
  function DeduplicateBitSet(d: Deduplicator, x: Option<Ref<BitSet>>): (r: Out<Option<Ref<BitSet>>>)
    ensures x.None? ==> r == Out(None, d)
    ensures x.Some? ==> r.value.Some? && x.value.val in r.state.bitSets && r.state.bitSets[x.value.val] == r.value.value
    ensures x.Some? && x.value.val in d.bitSets ==> r == Out(Some(d.bitSets[x.value.val]), d)
    ensures x.Some? && x.value.val !in d.bitSets ==> r.value == x && r.state.bitSets == d.bitSets[x.value.val := x.value]
    ensures r.state == d.(bitSets := r.state.bitSets, nextId := r.state.nextId)
    ensures Grows(d, r.state)
    ensures Valid(d) ==> Valid(r.state) && Content(r.value) == Content(x)
  {
    match x
    case None => Out(None, d)
    case Some(o) =>
      var i := Intern(d.bitSets, d.nextId, o, KeepArgument);
      Out(Some(i.canonical), d.(bitSets := i.store, nextId := i.nextId))
  }

  /** `deduplicateOptionalInteger`: the stored `Optional` for the value, or, on a miss, a
      fresh `Optional` wrapping it. There is no null case and no base store. */
  function DeduplicateOptionalInteger(d: Deduplicator, x: int32): (r: Out<Optional<int32>>)
    ensures x in r.state.optionalIntegers && r.state.optionalIntegers[x] == r.value
    ensures x in d.optionalIntegers ==> r == Out(d.optionalIntegers[x], d)
    ensures x !in d.optionalIntegers ==>
              && r.value.Present? && r.value.get == x && d.nextId <= r.value.id
              && r.state.optionalIntegers == d.optionalIntegers[x := r.value]
    ensures r.state == d.(optionalIntegers := r.state.optionalIntegers, nextId := r.state.nextId)
    ensures Grows(d, r.state)
    ensures Valid(d) ==> Valid(r.state) && r.value.Present? && r.value.get == x
  {
    var i := InternValue(d.optionalIntegers, d.nextId, x);
    Out(i.wrapper, d.(optionalIntegers := i.store, nextId := i.nextId))
  }

  /** `deduplicateOptionalDouble`: the stored `Optional` for the value, or, on a miss, a
      fresh `Optional` wrapping it. There is no null case and no base store. */
  function DeduplicateOptionalDouble(d: Deduplicator, x: Double): (r: Out<Optional<Double>>)
    ensures x in r.state.optionalDoubles && r.state.optionalDoubles[x] == r.value
    ensures x in d.optionalDoubles ==> r == Out(d.optionalDoubles[x], d)
    ensures x !in d.optionalDoubles ==>
              && r.value.Present? && r.value.get == x && d.nextId <= r.value.id
              && r.state.optionalDoubles == d.optionalDoubles[x := r.value]
    ensures r.state == d.(optionalDoubles := r.state.optionalDoubles, nextId := r.state.nextId)
    ensures Grows(d, r.state)
    ensures Valid(d) ==> Valid(r.state) && r.value.Present? && r.value.get == x
  {
    var i := InternValue(d.optionalDoubles, d.nextId, x);
    Out(i.wrapper, d.(optionalDoubles := i.store, nextId := i.nextId))
  }

  /** `deduplicateUrl`: null passes through; otherwise the stored `URL` content-equal to
      the argument, or, on a miss, the argument itself, which becomes canonical. */
  function DeduplicateUrl(d: Deduplicator, x: Option<Ref<Url>>): (r: Out<Option<Ref<Url>>>)
    ensures x.None? ==> r == Out(None, d)
    ensures x.Some? ==> r.value.Some? && x.value.val in r.state.urls && r.state.urls[x.value.val] == r.value.value
    ensures x.Some? && x.value.val in d.urls ==> r == Out(Some(d.urls[x.value.val]), d)
    ensures x.Some? && x.value.val !in d.urls ==> r.value == x && r.state.urls == d.urls[x.value.val := x.value]
    ensures r.state == d.(urls := r.state.urls, nextId := r.state.nextId)
    ensures Grows(d, r.state)
    ensures Valid(d) ==> Valid(r.state) && Content(r.value) == Content(x)
  {
    match x
    case None => Out(None, d)
    case Some(o) =>
      var i := Intern(d.urls, d.nextId, o, KeepArgument);
      Out(Some(i.canonical), d.(urls := i.store, nextId := i.nextId))
  }

  /** `deduplicateOptionalUrl`: null gives `absent()`; otherwise the stored `Optional`
      for the argument's content, or, on a miss, a fresh `Optional` wrapping what
      `deduplicateUrl` returns for the argument. */
  function DeduplicateOptionalUrl(d: Deduplicator, x: Option<Ref<Url>>): (r: Out<Optional<Ref<Url>>>)
    ensures x.None? ==> r == Out(Absent, d)
    ensures x.Some? && x.value.val in d.optionalUrls ==> r == Out(d.optionalUrls[x.value.val], d)
    ensures x.Some? && x.value.val !in d.optionalUrls ==>
              var b := DeduplicateUrl(d, x);
              && r.value.Present? && b.value == Some(r.value.get)
              && r.state.urls == b.state.urls
              && d.nextId <= r.value.id && r.value.id != x.value.id
    ensures r.state == d.(urls := r.state.urls, optionalUrls := r.state.optionalUrls, nextId := r.state.nextId)
    ensures Valid(d) ==> Valid(r.state) && Grows(d, r.state)
    ensures Valid(d) && x.Some? ==>
              && r.value.Present? && r.value.get.val == x.value.val
              && x.value.val in r.state.urls && r.value.get == r.state.urls[x.value.val]
              && x.value.val in r.state.optionalUrls && r.state.optionalUrls[x.value.val] == r.value
    ensures Valid(d) && x.Some? && x.value.val !in d.optionalUrls ==> r.state.optionalUrls == d.optionalUrls[x.value.val := r.value]
  {
    match x
    case None => Out(Absent, d)
    case Some(o) =>
      var i := InternOptional(d.optionalUrls, d.urls, d.nextId, o, KeepArgument);
      Out(i.wrapper, d.(urls := i.base, optionalUrls := i.optional, nextId := i.nextId))
  }

  /** `deduplicateTz`: null passes through; otherwise the stored `TimeZone` content-equal to
      the argument, or, on a miss, the argument itself, which becomes canonical. */
  function DeduplicateTz(d: Deduplicator, x: Option<Ref<TimeZone>>): (r: Out<Option<Ref<TimeZone>>>)
    ensures x.None? ==> r == Out(None, d)
    ensures x.Some? ==> r.value.Some? && x.value.val in r.state.tzs && r.state.tzs[x.value.val] == r.value.value
    ensures x.Some? && x.value.val in d.tzs ==> r == Out(Some(d.tzs[x.value.val]), d)
    ensures x.Some? && x.value.val !in d.tzs ==> r.value == x && r.state.tzs == d.tzs[x.value.val := x.value]
    ensures r.state == d.(tzs := r.state.tzs, nextId := r.state.nextId)
    ensures Grows(d, r.state)
    ensures Valid(d) ==> Valid(r.state) && Content(r.value) == Content(x)
  {
    match x
    case None => Out(None, d)
    case Some(o) =>
      var i := Intern(d.tzs, d.nextId, o, KeepArgument);
      Out(Some(i.canonical), d.(tzs := i.store, nextId := i.nextId))
  }

  /** `deduplicateOptionalTz`: null gives `absent()`; otherwise the stored `Optional`
      for the argument's content, or, on a miss, a fresh `Optional` wrapping what
      `deduplicateTz` returns for the argument. */
  function DeduplicateOptionalTz(d: Deduplicator, x: Option<Ref<TimeZone>>): (r: Out<Optional<Ref<TimeZone>>>)
    ensures x.None? ==> r == Out(Absent, d)
    ensures x.Some? && x.value.val in d.optionalTzs ==> r == Out(d.optionalTzs[x.value.val], d)
    ensures x.Some? && x.value.val !in d.optionalTzs ==>
              var b := DeduplicateTz(d, x);
              && r.value.Present? && b.value == Some(r.value.get)
              && r.state.tzs == b.state.tzs
              && d.nextId <= r.value.id && r.value.id != x.value.id
    ensures r.state == d.(tzs := r.state.tzs, optionalTzs := r.state.optionalTzs, nextId := r.state.nextId)
    ensures Valid(d) ==> Valid(r.state) && Grows(d, r.state)
    ensures Valid(d) && x.Some? ==>
              && r.value.Present? && r.value.get.val == x.value.val
              && x.value.val in r.state.tzs && r.value.get == r.state.tzs[x.value.val]
              && x.value.val in r.state.optionalTzs && r.state.optionalTzs[x.value.val] == r.value
    ensures Valid(d) && x.Some? && x.value.val !in d.optionalTzs ==> r.state.optionalTzs == d.optionalTzs[x.value.val := r.value]
  {
    match x
    case None => Out(Absent, d)
    case Some(o) =>
      var i := InternOptional(d.optionalTzs, d.tzs, d.nextId, o, KeepArgument);
      Out(i.wrapper, d.(tzs := i.base, optionalTzs := i.optional, nextId := i.nextId))
  }

  /** `deduplicateLang`: null passes through; otherwise the stored `Locale` content-equal to
      the argument, or, on a miss, the argument itself, which becomes canonical. */
  function DeduplicateLang(d: Deduplicator, x: Option<Ref<Locale>>): (r: Out<Option<Ref<Locale>>>)
    ensures x.None? ==> r == Out(None, d)
    ensures x.Some? ==> r.value.Some? && x.value.val in r.state.langs && r.state.langs[x.value.val] == r.value.value
    ensures x.Some? && x.value.val in d.langs ==> r == Out(Some(d.langs[x.value.val]), d)
    ensures x.Some? && x.value.val !in d.langs ==> r.value == x && r.state.langs == d.langs[x.value.val := x.value]
    ensures r.state == d.(langs := r.state.langs, nextId := r.state.nextId)
    ensures Grows(d, r.state)
    ensures Valid(d) ==> Valid(r.state) && Content(r.value) == Content(x)
  {
    match x
    case None => Out(None, d)
    case Some(o) =>
      var i := Intern(d.langs, d.nextId, o, KeepArgument);
      Out(Some(i.canonical), d.(langs := i.store, nextId := i.nextId))
  }

  /** `deduplicateOptionalLang`: null gives `absent()`; otherwise the stored `Optional`
      for the argument's content, or, on a miss, a fresh `Optional` wrapping what
      `deduplicateLang` returns for the argument. */
  function DeduplicateOptionalLang(d: Deduplicator, x: Option<Ref<Locale>>): (r: Out<Optional<Ref<Locale>>>)
    ensures x.None? ==> r == Out(Absent, d)
    ensures x.Some? && x.value.val in d.optionalLangs ==> r == Out(d.optionalLangs[x.value.val], d)
    ensures x.Some? && x.value.val !in d.optionalLangs ==>
              var b := DeduplicateLang(d, x);
              && r.value.Present? && b.value == Some(r.value.get)
              && r.state.langs == b.state.langs
              && d.nextId <= r.value.id && r.value.id != x.value.id
    ensures r.state == d.(langs := r.state.langs, optionalLangs := r.state.optionalLangs, nextId := r.state.nextId)
    ensures Valid(d) ==> Valid(r.state) && Grows(d, r.state)
    ensures Valid(d) && x.Some? ==>
              && r.value.Present? && r.value.get.val == x.value.val
              && x.value.val in r.state.langs && r.value.get == r.state.langs[x.value.val]
              && x.value.val in r.state.optionalLangs && r.state.optionalLangs[x.value.val] == r.value
    ensures Valid(d) && x.Some? && x.value.val !in d.optionalLangs ==> r.state.optionalLangs == d.optionalLangs[x.value.val := r.value]
  {
    match x
    case None => Out(Absent, d)
    case Some(o) =>
      var i := InternOptional(d.optionalLangs, d.langs, d.nextId, o, KeepArgument);
      Out(i.wrapper, d.(langs := i.base, optionalLangs := i.optional, nextId := i.nextId))
  }

  /** `deduplicateDate`: null passes through; otherwise the stored `LocalDate` content-equal to
      the argument, or, on a miss, the argument itself, which becomes canonical. */
  function DeduplicateDate(d: Deduplicator, x: Option<Ref<LocalDate>>): (r: Out<Option<Ref<LocalDate>>>)
    ensures x.None? ==> r == Out(None, d)
    ensures x.Some? ==> r.value.Some? && x.value.val in r.state.dates && r.state.dates[x.value.val] == r.value.value
    ensures x.Some? && x.value.val in d.dates ==> r == Out(Some(d.dates[x.value.val]), d)
    ensures x.Some? && x.value.val !in d.dates ==> r.value == x && r.state.dates == d.dates[x.value.val := x.value]
    ensures r.state == d.(dates := r.state.dates, nextId := r.state.nextId)
    ensures Grows(d, r.state)
    ensures Valid(d) ==> Valid(r.state) && Content(r.value) == Content(x)
  {
    match x
    case None => Out(None, d)
    case Some(o) =>
      var i := Intern(d.dates, d.nextId, o, KeepArgument);
      Out(Some(i.canonical), d.(dates := i.store, nextId := i.nextId))
  }

  /** `deduplicateOptionalDate`: null gives `absent()`; otherwise the stored `Optional`
      for the argument's content, or, on a miss, a fresh `Optional` wrapping what
      `deduplicateDate` returns for the argument. */
  function DeduplicateOptionalDate(d: Deduplicator, x: Option<Ref<LocalDate>>): (r: Out<Optional<Ref<LocalDate>>>)
    ensures x.None? ==> r == Out(Absent, d)
    ensures x.Some? && x.value.val in d.optionalDates ==> r == Out(d.optionalDates[x.value.val], d)
    ensures x.Some? && x.value.val !in d.optionalDates ==>
              var b := DeduplicateDate(d, x);
              && r.value.Present? && b.value == Some(r.value.get)
              && r.state.dates == b.state.dates
              && d.nextId <= r.value.id && r.value.id != x.value.id
    ensures r.state == d.(dates := r.state.dates, optionalDates := r.state.optionalDates, nextId := r.state.nextId)
    ensures Valid(d) ==> Valid(r.state) && Grows(d, r.state)
    ensures Valid(d) && x.Some? ==>
              && r.value.Present? && r.value.get.val == x.value.val
              && x.value.val in r.state.dates && r.value.get == r.state.dates[x.value.val]
              && x.value.val in r.state.optionalDates && r.state.optionalDates[x.value.val] == r.value
    ensures Valid(d) && x.Some? && x.value.val !in d.optionalDates ==> r.state.optionalDates == d.optionalDates[x.value.val := r.value]
  {
    match x
    case None => Out(Absent, d)
    case Some(o) =>
      var i := InternOptional(d.optionalDates, d.dates, d.nextId, o, KeepArgument);
      Out(i.wrapper, d.(dates := i.base, optionalDates := i.optional, nextId := i.nextId))
  }

  /** `deduplicateOptionalBoolean`: one of the two static constants, chosen by the argument.
      It takes no state: no store is read or written. */
  function DeduplicateOptionalBoolean(x: bool): (r: Optional<bool>)
    ensures r.Present? && r.get == x
    ensures r.id < FirstFreshId
  {
    if x then Present(TrueId, true) else Present(FalseId, false)
  }

  /** The element loop of the deduplicating `StringArray` constructor: `deduplicateString`
      applied to each element in index order, threading the state. */
  function DeduplicateElements(d: Deduplicator, xs: StringArray): (r: Out<StringArray>)
    ensures |r.value| == |xs|
    ensures r.state == d.(strings := r.state.strings, nextId := r.state.nextId)
    ensures Retains(d.strings, r.state.strings) && d.nextId <= r.state.nextId
    ensures Valid(d) ==> Valid(r.state) && Contents(r.value) == Contents(xs) && ElementsCanonical(r.value, r.state.strings)
    // the string store gains exactly the contents of the non-null elements
    ensures r.state.strings.Keys == d.strings.Keys + ElementStrings(xs)
    decreases |xs|
  {
    if xs == [] then
      Out([], d)
    else
      var front := DeduplicateElements(d, xs[..|xs| - 1]);
      var last := DeduplicateString(front.state, xs[|xs| - 1]);
      ElementStringsOfLast(xs);
      CanonicalAppend(front.value, last.value, front.state.strings, last.state.strings);
      ContentsAppend(front.value, last.value);
      ContentsAppend(xs[..|xs| - 1], xs[|xs| - 1]);
      assert xs[..|xs| - 1] + [xs[|xs| - 1]] == xs;
      Out(front.value + [last.value], last.state)
  }

  /** Appending an element that is canonical in a store that retains the old one keeps a
      `String[]` canonical. */
  lemma CanonicalAppend(a: StringArray, e: Option<Ref<JavaString>>, s1: map<JavaString, Ref<JavaString>>, s2: map<JavaString, Ref<JavaString>>)
    ensures ElementsCanonical(a, s1) && Retains(s1, s2) && (e.Some? ==> e.value.val in s2 && s2[e.value.val] == e.value)
            ==> ElementsCanonical(a + [e], s2)
  {
  }

  lemma ContentsAppend(a: StringArray, e: Option<Ref<JavaString>>)
    ensures Contents(a + [e]) == Contents(a) + [Content(e)]
  {
  }

  /** The contents of the non-null elements of a `String[]`. */
  ghost function ElementStrings(xs: StringArray): set<JavaString> {
    set i | 0 <= i < |xs| && xs[i].Some? :: xs[i].value.val
  }

  lemma ElementStringsOfLast(xs: StringArray)
    requires xs != []
    ensures ElementStrings(xs) ==
              ElementStrings(xs[..|xs| - 1]) + (if xs[|xs| - 1].Some? then {xs[|xs| - 1].value.val} else {})
  {
    var front := xs[..|xs| - 1];
    forall s | s in ElementStrings(xs)
      ensures s in ElementStrings(front) || (xs[|xs| - 1].Some? && s == xs[|xs| - 1].value.val)
    {
      var i :| 0 <= i < |xs| && xs[i].Some? && xs[i].value.val == s;
      if i < |xs| - 1 {
        assert front[i] == xs[i];
      }
    }
    forall s | s in ElementStrings(front) ensures s in ElementStrings(xs) {
      var i :| 0 <= i < |front| && front[i].Some? && front[i].value.val == s;
      assert xs[i] == front[i];
    }
  }

  /** `deduplicateStringArray`: null passes through; otherwise the stored array whose
      elements equal the argument's, element by element; on a miss, a fresh array of the
      canonical strings of the argument's elements becomes canonical. */
  function DeduplicateStringArray(d: Deduplicator, x: Option<Ref<StringArray>>): (r: Out<Option<Ref<StringArray>>>)
    ensures x.None? ==> r == Out(None, d)
    ensures x.Some? && Contents(x.value.val) in d.stringArrays ==>
              r == Out(Some(d.stringArrays[Contents(x.value.val)]), d)
    ensures x.Some? && Contents(x.value.val) !in d.stringArrays ==>
              var e := DeduplicateElements(d, x.value.val);
              && r.value.Some? && r.value.value.val == e.value
              && r.state.strings == e.state.strings
              && d.nextId <= r.value.value.id && r.value.value.id != x.value.id
    ensures r.state == d.(strings := r.state.strings, stringArrays := r.state.stringArrays, nextId := r.state.nextId)
    ensures Valid(d) ==> Valid(r.state) && Grows(d, r.state)
    ensures Valid(d) && x.Some? ==>
              && r.value.Some? && Contents(r.value.value.val) == Contents(x.value.val)
              && ElementsCanonical(r.value.value.val, r.state.strings)
              && Contents(x.value.val) in r.state.stringArrays
              && r.state.stringArrays[Contents(x.value.val)] == r.value.value
    ensures Valid(d) && x.Some? && Contents(x.value.val) !in d.stringArrays ==>
              r.state.stringArrays == d.stringArrays[Contents(x.value.val) := r.value.value]
  {
    match x
    case None => Out(None, d)
    case Some(a) =>
      var key := Contents(a.val);
      if key in d.stringArrays then
        Out(Some(d.stringArrays[key]), d)
      else
        var e := DeduplicateElements(d, a.val);
        var c := Ref(Past(e.state.nextId, a.id), e.value);
        Out(Some(c), e.state.(stringArrays := e.state.stringArrays[Contents(c.val) := c], nextId := c.id + 1))
  }
}
