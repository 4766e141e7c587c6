/**
 Properties of single operations and of pairs of calls: two successive calls return the
 same instance exactly when their arguments are content-equal (so a second call is a hit
 that changes nothing), `reset` makes every later call a miss, and the boolean constants.
 */
module Properties {
  import opened Objects
  import opened Stores
  import opened Deduplication

  /** Canonical uniqueness for `deduplicateIntArray`: a second call returns the first call's
      result exactly when the arguments are content-equal (or both null), and then leaves
      the state as the first call left it. */
  lemma IntArraySameInstanceIffEqual(d: Deduplicator, x: Option<Ref<seq<int32>>>, y: Option<Ref<seq<int32>>>)
    requires Valid(d)
    ensures var r1 := DeduplicateIntArray(d, x);
            var r2 := DeduplicateIntArray(r1.state, y);
            && (r2.value == r1.value <==> Content(x) == Content(y))
            && (Content(x) == Content(y) ==> r2.state == r1.state)
  {
  }

  /** Canonical uniqueness for `deduplicateString`: a second call returns the first call's
      result exactly when the arguments are content-equal (or both null), and then leaves
      the state as the first call left it. */
  lemma StringSameInstanceIffEqual(d: Deduplicator, x: Option<Ref<JavaString>>, y: Option<Ref<JavaString>>)
    requires Valid(d)
    ensures var r1 := DeduplicateString(d, x);
            var r2 := DeduplicateString(r1.state, y);
            && (r2.value == r1.value <==> Content(x) == Content(y))
            && (Content(x) == Content(y) ==> r2.state == r1.state)
  {
  }

  /** Canonical uniqueness for `deduplicateBitSet`: a second call returns the first call's
      result exactly when the arguments are content-equal (or both null), and then leaves
      the state as the first call left it. */
  lemma BitSetSameInstanceIffEqual(d: Deduplicator, x: Option<Ref<BitSet>>, y: Option<Ref<BitSet>>)
    requires Valid(d)
    ensures var r1 := DeduplicateBitSet(d, x);
            var r2 := DeduplicateBitSet(r1.state, y);
            && (r2.value == r1.value <==> Content(x) == Content(y))
            && (Content(x) == Content(y) ==> r2.state == r1.state)
  {
  }

  /** Canonical uniqueness for `deduplicateUrl`: a second call returns the first call's
      result exactly when the arguments are content-equal (or both null), and then leaves
      the state as the first call left it. */
  lemma UrlSameInstanceIffEqual(d: Deduplicator, x: Option<Ref<Url>>, y: Option<Ref<Url>>)
    requires Valid(d)
    ensures var r1 := DeduplicateUrl(d, x);
            var r2 := DeduplicateUrl(r1.state, y);
            && (r2.value == r1.value <==> Content(x) == Content(y))
            && (Content(x) == Content(y) ==> r2.state == r1.state)
  {
  }

  /** Canonical uniqueness for `deduplicateTz`: a second call returns the first call's
      result exactly when the arguments are content-equal (or both null), and then leaves
      the state as the first call left it. */
  lemma TzSameInstanceIffEqual(d: Deduplicator, x: Option<Ref<TimeZone>>, y: Option<Ref<TimeZone>>)
    requires Valid(d)
    ensures var r1 := DeduplicateTz(d, x);
            var r2 := DeduplicateTz(r1.state, y);
            && (r2.value == r1.value <==> Content(x) == Content(y))
            && (Content(x) == Content(y) ==> r2.state == r1.state)
  {
  }

  /** Canonical uniqueness for `deduplicateLang`: a second call returns the first call's
      result exactly when the arguments are content-equal (or both null), and then leaves
      the state as the first call left it. */
  lemma LangSameInstanceIffEqual(d: Deduplicator, x: Option<Ref<Locale>>, y: Option<Ref<Locale>>)
    requires Valid(d)
    ensures var r1 := DeduplicateLang(d, x);
            var r2 := DeduplicateLang(r1.state, y);
            && (r2.value == r1.value <==> Content(x) == Content(y))
            && (Content(x) == Content(y) ==> r2.state == r1.state)
  {
  }

  /** Canonical uniqueness for `deduplicateDate`: a second call returns the first call's
      result exactly when the arguments are content-equal (or both null), and then leaves
      the state as the first call left it. */
  lemma DateSameInstanceIffEqual(d: Deduplicator, x: Option<Ref<LocalDate>>, y: Option<Ref<LocalDate>>)
    requires Valid(d)
    ensures var r1 := DeduplicateDate(d, x);
            var r2 := DeduplicateDate(r1.state, y);
            && (r2.value == r1.value <==> Content(x) == Content(y))
            && (Content(x) == Content(y) ==> r2.state == r1.state)
  {
  }

  /** Canonical uniqueness for `deduplicateOptionalString`: a second call returns the first call's
      result exactly when the arguments are content-equal (or both null), and then leaves
      the state as the first call left it. */
  lemma OptionalStringSameInstanceIffEqual(d: Deduplicator, x: Option<Ref<JavaString>>, y: Option<Ref<JavaString>>)
    requires Valid(d)
    ensures var r1 := DeduplicateOptionalString(d, x);
            var r2 := DeduplicateOptionalString(r1.state, y);
            && (r2.value == r1.value <==> Content(x) == Content(y))
            && (Content(x) == Content(y) ==> r2.state == r1.state)
  {
  }

  /** Canonical uniqueness for `deduplicateOptionalUrl`: a second call returns the first call's
      result exactly when the arguments are content-equal (or both null), and then leaves
      the state as the first call left it. */
  lemma OptionalUrlSameInstanceIffEqual(d: Deduplicator, x: Option<Ref<Url>>, y: Option<Ref<Url>>)
    requires Valid(d)
    ensures var r1 := DeduplicateOptionalUrl(d, x);
            var r2 := DeduplicateOptionalUrl(r1.state, y);
            && (r2.value == r1.value <==> Content(x) == Content(y))
            && (Content(x) == Content(y) ==> r2.state == r1.state)
  {
  }

  /** Canonical uniqueness for `deduplicateOptionalTz`: a second call returns the first call's
      result exactly when the arguments are content-equal (or both null), and then leaves
      the state as the first call left it. */
  lemma OptionalTzSameInstanceIffEqual(d: Deduplicator, x: Option<Ref<TimeZone>>, y: Option<Ref<TimeZone>>)
    requires Valid(d)
    ensures var r1 := DeduplicateOptionalTz(d, x);
            var r2 := DeduplicateOptionalTz(r1.state, y);
            && (r2.value == r1.value <==> Content(x) == Content(y))
            && (Content(x) == Content(y) ==> r2.state == r1.state)
  {
  }

  /** Canonical uniqueness for `deduplicateOptionalLang`: a second call returns the first call's
      result exactly when the arguments are content-equal (or both null), and then leaves
      the state as the first call left it. */
  lemma OptionalLangSameInstanceIffEqual(d: Deduplicator, x: Option<Ref<Locale>>, y: Option<Ref<Locale>>)
    requires Valid(d)
    ensures var r1 := DeduplicateOptionalLang(d, x);
            var r2 := DeduplicateOptionalLang(r1.state, y);
            && (r2.value == r1.value <==> Content(x) == Content(y))
            && (Content(x) == Content(y) ==> r2.state == r1.state)
  {
  }

  /** Canonical uniqueness for `deduplicateOptionalDate`: a second call returns the first call's
      result exactly when the arguments are content-equal (or both null), and then leaves
      the state as the first call left it. */
  lemma OptionalDateSameInstanceIffEqual(d: Deduplicator, x: Option<Ref<LocalDate>>, y: Option<Ref<LocalDate>>)
    requires Valid(d)
    ensures var r1 := DeduplicateOptionalDate(d, x);
            var r2 := DeduplicateOptionalDate(r1.state, y);
            && (r2.value == r1.value <==> Content(x) == Content(y))
            && (Content(x) == Content(y) ==> r2.state == r1.state)
  {
  }

  /** Canonical uniqueness for `deduplicateOptionalInteger`: a second call returns the first
      call's wrapper exactly when the values are equal, and then changes nothing. */
  lemma OptionalIntegerSameInstanceIffEqual(d: Deduplicator, x: int32, y: int32)
    requires Valid(d)
    ensures var r1 := DeduplicateOptionalInteger(d, x);
            var r2 := DeduplicateOptionalInteger(r1.state, y);
            && (r2.value == r1.value <==> x == y)
            && (x == y ==> r2.state == r1.state)
  {
  }

  /** Canonical uniqueness for `deduplicateOptionalDouble`: a second call returns the first
      call's wrapper exactly when the values are equal, and then changes nothing. */
  lemma OptionalDoubleSameInstanceIffEqual(d: Deduplicator, x: Double, y: Double)
    requires Valid(d)
    ensures var r1 := DeduplicateOptionalDouble(d, x);
            var r2 := DeduplicateOptionalDouble(r1.state, y);
            && (r2.value == r1.value <==> x == y)
            && (x == y ==> r2.state == r1.state)
  {
  }

  /** The same for `deduplicateStringArray`, whose equality is element-wise, order- and
      length-sensitive content equality of the arrays. */
  lemma StringArraySameInstanceIffEqual(d: Deduplicator, x: Option<Ref<StringArray>>, y: Option<Ref<StringArray>>)
    requires Valid(d)
    ensures var r1 := DeduplicateStringArray(d, x);
            var r2 := DeduplicateStringArray(r1.state, y);
            && (r2.value == r1.value <==> ArrayContent(x) == ArrayContent(y))
            && (ArrayContent(x) == ArrayContent(y) ==> r2.state == r1.state)
  {
  }

  /** The two boolean constants: equal results exactly for equal arguments. */
  lemma OptionalBooleanSingletons(a: bool, b: bool)
    ensures DeduplicateOptionalBoolean(a) == DeduplicateOptionalBoolean(b) <==> a == b
  {
  }

  /** After `reset` an `int[]` is a miss: the argument itself becomes the only entry. */
  lemma ResetForgetsIntArray(d: Deduplicator, x: Ref<seq<int32>>)
    ensures var r := DeduplicateIntArray(Reset(d), Some(x));
            r.value == Some(x) && r.state.intArrays == map[x.val := x]
  {
  }

  /** After `reset` a string is a miss: a new instance, distinct from the one that was
      canonical before the reset, becomes the only entry. */
  lemma ResetForgetsString(d: Deduplicator, x: Ref<JavaString>)
    requires Valid(d)
    ensures var r := DeduplicateString(Reset(d), Some(x));
            && r.value.Some? && r.state.strings == map[x.val := r.value.value]
            && (x.val in d.strings ==> r.value.value != d.strings[x.val])
  {
  }

  /** After `reset` an optional string is a miss: a new wrapper, distinct from the one that
      was canonical before the reset. */
  lemma ResetForgetsOptionalString(d: Deduplicator, x: Ref<JavaString>)
    requires Valid(d)
    ensures var r := DeduplicateOptionalString(Reset(d), Some(x));
            && r.value.Present? && r.state.optionalStrings == map[x.val := r.value]
            && (x.val in d.optionalStrings ==> r.value != d.optionalStrings[x.val])
  {
  }

  /** Element-level sharing: each non-null element of the canonical array is the instance
      `deduplicateString` returns afterwards for an equal string. */
  lemma StringArrayElementsShared(d: Deduplicator, x: Ref<StringArray>, i: nat, y: Ref<JavaString>)
    requires Valid(d) && i < |x.val| && x.val[i].Some? && y.val == x.val[i].value.val
    ensures var r := DeduplicateStringArray(d, Some(x));
            && r.value.Some? && i < |r.value.value.val|
            && DeduplicateString(r.state, Some(y)) == Out(r.value.value.val[i], r.state)
  {
  }

  /** Two arrays deduplicated one after the other share the instances of equal elements. */
  lemma StringArraysShareElements(d: Deduplicator, x: Ref<StringArray>, y: Ref<StringArray>, i: nat, j: nat)
    requires Valid(d) && i < |x.val| && j < |y.val|
    requires x.val[i].Some? && y.val[j].Some? && x.val[i].value.val == y.val[j].value.val
    ensures var r1 := DeduplicateStringArray(d, Some(x));
            var r2 := DeduplicateStringArray(r1.state, Some(y));
            && r1.value.Some? && r2.value.Some?
            && i < |r1.value.value.val| && j < |r2.value.value.val|
            && r1.value.value.val[i] == r2.value.value.val[j]
  {
  }
}
