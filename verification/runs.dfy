/**
 Sequences of calls. Because every Java method holds the deduplicator's lock for its whole
 body, any execution by concurrent callers is some sequence of whole calls; the lemmas here
 hold for every such sequence. In particular, once a value has been deduplicated, every
 later call with an equal value, in whatever order the other calls come, returns the same
 instance until a `reset`.
 */
module Runs {
  import opened Objects
  import opened Stores
  import opened Deduplication

  /** One call into the deduplicator, with its argument. */
  datatype Call =
    | ResetCall
    | IntArrayCall(Option<Ref<seq<int32>>>)
    | StringCall(Option<Ref<JavaString>>)
    | OptionalStringCall(Option<Ref<JavaString>>)
    | BitSetCall(Option<Ref<BitSet>>)
    | StringArrayCall(Option<Ref<StringArray>>)
    | OptionalIntegerCall(int32)
    | OptionalDoubleCall(Double)
    | OptionalBooleanCall(bool)
    | UrlCall(Option<Ref<Url>>)
    | OptionalUrlCall(Option<Ref<Url>>)
    | TzCall(Option<Ref<TimeZone>>)
    | OptionalTzCall(Option<Ref<TimeZone>>)
    | LangCall(Option<Ref<Locale>>)
    | OptionalLangCall(Option<Ref<Locale>>)
    | DateCall(Option<Ref<LocalDate>>)
    | OptionalDateCall(Option<Ref<LocalDate>>)

  /** The state after one call. Every call keeps the store invariant; every call other
      than `reset` only adds entries. */
  function Apply(d: Deduplicator, c: Call): (r: Deduplicator)
    ensures Valid(d) ==> Valid(r)
    ensures Valid(d) && c != ResetCall ==> Grows(d, r)
    ensures c == ResetCall ==> IsEmpty(r)
  {
    match c
    case ResetCall => Reset(d)
    case IntArrayCall(x) => DeduplicateIntArray(d, x).state
    case StringCall(x) => DeduplicateString(d, x).state
    case OptionalStringCall(x) => DeduplicateOptionalString(d, x).state
    case BitSetCall(x) => DeduplicateBitSet(d, x).state
    case StringArrayCall(x) => DeduplicateStringArray(d, x).state
    case OptionalIntegerCall(x) => DeduplicateOptionalInteger(d, x).state
    case OptionalDoubleCall(x) => DeduplicateOptionalDouble(d, x).state
    case OptionalBooleanCall(x) => d
    case UrlCall(x) => DeduplicateUrl(d, x).state
    case OptionalUrlCall(x) => DeduplicateOptionalUrl(d, x).state
    case TzCall(x) => DeduplicateTz(d, x).state
    case OptionalTzCall(x) => DeduplicateOptionalTz(d, x).state
    case LangCall(x) => DeduplicateLang(d, x).state
    case OptionalLangCall(x) => DeduplicateOptionalLang(d, x).state
    case DateCall(x) => DeduplicateDate(d, x).state
    case OptionalDateCall(x) => DeduplicateOptionalDate(d, x).state
  }

  /** The state after a sequence of calls, in order. */
  function Run(d: Deduplicator, cs: seq<Call>): Deduplicator
    decreases |cs|
  {
    if cs == [] then d else Run(Apply(d, cs[0]), cs[1..])
  }

  ghost predicate NoReset(cs: seq<Call>) {
    forall i | 0 <= i < |cs| :: cs[i] != ResetCall
  }

  lemma GrowsTransitive(d1: Deduplicator, d2: Deduplicator, d3: Deduplicator)
    requires Grows(d1, d2) && Grows(d2, d3)
    ensures Grows(d1, d3)
  {
  }

  /** The store invariant holds after any sequence of calls. */
  lemma {:induction false} RunPreservesValid(d: Deduplicator, cs: seq<Call>)
    requires Valid(d)
    ensures Valid(Run(d, cs))
    decreases |cs|
  {
    if cs != [] {
      RunPreservesValid(Apply(d, cs[0]), cs[1..]);
    }
  }

  /** Every state a deduplicator reaches from construction satisfies the store invariant. */
  lemma ReachableIsValid(cs: seq<Call>)
    ensures Valid(Run(Empty(), cs))
  {
    RunPreservesValid(Empty(), cs);
  }

  /** Without a `reset`, no entry of any store is ever removed or replaced. */
  lemma {:induction false} RunWithoutResetGrows(d: Deduplicator, cs: seq<Call>)
    requires Valid(d) && NoReset(cs)
    ensures Grows(d, Run(d, cs))
    decreases |cs|
  {
    if cs != [] {
      var d1 := Apply(d, cs[0]);
      assert NoReset(cs[1..]) by {
        forall i | 0 <= i < |cs[1..]| ensures cs[1..][i] != ResetCall {
          assert cs[1..][i] == cs[i + 1];
        }
      }
      RunWithoutResetGrows(d1, cs[1..]);
      GrowsTransitive(d, d1, Run(d1, cs[1..]));
    }
  }

  /** Once `deduplicateIntArray` has returned an instance, every later call with a
      content-equal argument, after any calls without `reset`, returns that same instance
      and changes nothing. */
  lemma IntArrayCanonicalPersists(d: Deduplicator, x: Ref<seq<int32>>, cs: seq<Call>, y: Ref<seq<int32>>)
    requires Valid(d) && NoReset(cs) && y.val == x.val
    ensures var r1 := DeduplicateIntArray(d, Some(x));
            var d2 := Run(r1.state, cs);
            DeduplicateIntArray(d2, Some(y)) == Out(r1.value, d2)
  {
    RunWithoutResetGrows(DeduplicateIntArray(d, Some(x)).state, cs);
  }

  /** Once `deduplicateString` has returned an instance, every later call with a
      content-equal argument, after any calls without `reset`, returns that same instance
      and changes nothing. */
  lemma StringCanonicalPersists(d: Deduplicator, x: Ref<JavaString>, cs: seq<Call>, y: Ref<JavaString>)
    requires Valid(d) && NoReset(cs) && y.val == x.val
    ensures var r1 := DeduplicateString(d, Some(x));
            var d2 := Run(r1.state, cs);
            DeduplicateString(d2, Some(y)) == Out(r1.value, d2)
  {
    RunWithoutResetGrows(DeduplicateString(d, Some(x)).state, cs);
  }

  /** Once `deduplicateOptionalString` has returned an instance, every later call with a
      content-equal argument, after any calls without `reset`, returns that same instance
      and changes nothing. */
  lemma OptionalStringCanonicalPersists(d: Deduplicator, x: Ref<JavaString>, cs: seq<Call>, y: Ref<JavaString>)
    requires Valid(d) && NoReset(cs) && y.val == x.val
    ensures var r1 := DeduplicateOptionalString(d, Some(x));
            var d2 := Run(r1.state, cs);
            DeduplicateOptionalString(d2, Some(y)) == Out(r1.value, d2)
  {
    RunWithoutResetGrows(DeduplicateOptionalString(d, Some(x)).state, cs);
  }

  /** Once `deduplicateBitSet` has returned an instance, every later call with a
      content-equal argument, after any calls without `reset`, returns that same instance
      and changes nothing. */
  lemma BitSetCanonicalPersists(d: Deduplicator, x: Ref<BitSet>, cs: seq<Call>, y: Ref<BitSet>)
    requires Valid(d) && NoReset(cs) && y.val == x.val
    ensures var r1 := DeduplicateBitSet(d, Some(x));
            var d2 := Run(r1.state, cs);
            DeduplicateBitSet(d2, Some(y)) == Out(r1.value, d2)
  {
    RunWithoutResetGrows(DeduplicateBitSet(d, Some(x)).state, cs);
  }

  /** Once `deduplicateUrl` has returned an instance, every later call with a
      content-equal argument, after any calls without `reset`, returns that same instance
      and changes nothing. */
  lemma UrlCanonicalPersists(d: Deduplicator, x: Ref<Url>, cs: seq<Call>, y: Ref<Url>)
    requires Valid(d) && NoReset(cs) && y.val == x.val
    ensures var r1 := DeduplicateUrl(d, Some(x));
            var d2 := Run(r1.state, cs);
            DeduplicateUrl(d2, Some(y)) == Out(r1.value, d2)
  {
    RunWithoutResetGrows(DeduplicateUrl(d, Some(x)).state, cs);
  }

  /** Once `deduplicateOptionalUrl` has returned an instance, every later call with a
      content-equal argument, after any calls without `reset`, returns that same instance
      and changes nothing. */
  lemma OptionalUrlCanonicalPersists(d: Deduplicator, x: Ref<Url>, cs: seq<Call>, y: Ref<Url>)
    requires Valid(d) && NoReset(cs) && y.val == x.val
    ensures var r1 := DeduplicateOptionalUrl(d, Some(x));
            var d2 := Run(r1.state, cs);
            DeduplicateOptionalUrl(d2, Some(y)) == Out(r1.value, d2)
  {
    RunWithoutResetGrows(DeduplicateOptionalUrl(d, Some(x)).state, cs);
  }

  /** Once `deduplicateTz` has returned an instance, every later call with a
      content-equal argument, after any calls without `reset`, returns that same instance
      and changes nothing. */
  lemma TzCanonicalPersists(d: Deduplicator, x: Ref<TimeZone>, cs: seq<Call>, y: Ref<TimeZone>)
    requires Valid(d) && NoReset(cs) && y.val == x.val
    ensures var r1 := DeduplicateTz(d, Some(x));
            var d2 := Run(r1.state, cs);
            DeduplicateTz(d2, Some(y)) == Out(r1.value, d2)
  {
    RunWithoutResetGrows(DeduplicateTz(d, Some(x)).state, cs);
  }

  /** Once `deduplicateOptionalTz` has returned an instance, every later call with a
      content-equal argument, after any calls without `reset`, returns that same instance
      and changes nothing. */
  lemma OptionalTzCanonicalPersists(d: Deduplicator, x: Ref<TimeZone>, cs: seq<Call>, y: Ref<TimeZone>)
    requires Valid(d) && NoReset(cs) && y.val == x.val
    ensures var r1 := DeduplicateOptionalTz(d, Some(x));
            var d2 := Run(r1.state, cs);
            DeduplicateOptionalTz(d2, Some(y)) == Out(r1.value, d2)
  {
    RunWithoutResetGrows(DeduplicateOptionalTz(d, Some(x)).state, cs);
  }

  /** Once `deduplicateLang` has returned an instance, every later call with a
      content-equal argument, after any calls without `reset`, returns that same instance
      and changes nothing. */
  lemma LangCanonicalPersists(d: Deduplicator, x: Ref<Locale>, cs: seq<Call>, y: Ref<Locale>)
    requires Valid(d) && NoReset(cs) && y.val == x.val
    ensures var r1 := DeduplicateLang(d, Some(x));
            var d2 := Run(r1.state, cs);
            DeduplicateLang(d2, Some(y)) == Out(r1.value, d2)
  {
    RunWithoutResetGrows(DeduplicateLang(d, Some(x)).state, cs);
  }

  /** Once `deduplicateOptionalLang` has returned an instance, every later call with a
      content-equal argument, after any calls without `reset`, returns that same instance
      and changes nothing. */
  lemma OptionalLangCanonicalPersists(d: Deduplicator, x: Ref<Locale>, cs: seq<Call>, y: Ref<Locale>)
    requires Valid(d) && NoReset(cs) && y.val == x.val
    ensures var r1 := DeduplicateOptionalLang(d, Some(x));
            var d2 := Run(r1.state, cs);
            DeduplicateOptionalLang(d2, Some(y)) == Out(r1.value, d2)
  {
    RunWithoutResetGrows(DeduplicateOptionalLang(d, Some(x)).state, cs);
  }

  /** Once `deduplicateDate` has returned an instance, every later call with a
      content-equal argument, after any calls without `reset`, returns that same instance
      and changes nothing. */
  lemma DateCanonicalPersists(d: Deduplicator, x: Ref<LocalDate>, cs: seq<Call>, y: Ref<LocalDate>)
    requires Valid(d) && NoReset(cs) && y.val == x.val
    ensures var r1 := DeduplicateDate(d, Some(x));
            var d2 := Run(r1.state, cs);
            DeduplicateDate(d2, Some(y)) == Out(r1.value, d2)
  {
    RunWithoutResetGrows(DeduplicateDate(d, Some(x)).state, cs);
  }

  /** Once `deduplicateOptionalDate` has returned an instance, every later call with a
      content-equal argument, after any calls without `reset`, returns that same instance
      and changes nothing. */
  lemma OptionalDateCanonicalPersists(d: Deduplicator, x: Ref<LocalDate>, cs: seq<Call>, y: Ref<LocalDate>)
    requires Valid(d) && NoReset(cs) && y.val == x.val
    ensures var r1 := DeduplicateOptionalDate(d, Some(x));
            var d2 := Run(r1.state, cs);
            DeduplicateOptionalDate(d2, Some(y)) == Out(r1.value, d2)
  {
    RunWithoutResetGrows(DeduplicateOptionalDate(d, Some(x)).state, cs);
  }

  /** Once `deduplicateOptionalInteger` has returned a wrapper, every later call with the
      same value, after any calls without `reset`, returns that same wrapper. */
  lemma OptionalIntegerCanonicalPersists(d: Deduplicator, x: int32, cs: seq<Call>)
    requires Valid(d) && NoReset(cs)
    ensures var r1 := DeduplicateOptionalInteger(d, x);
            var d2 := Run(r1.state, cs);
            DeduplicateOptionalInteger(d2, x) == Out(r1.value, d2)
  {
    RunWithoutResetGrows(DeduplicateOptionalInteger(d, x).state, cs);
  }

  /** Once `deduplicateOptionalDouble` has returned a wrapper, every later call with the
      same value, after any calls without `reset`, returns that same wrapper. */
  lemma OptionalDoubleCanonicalPersists(d: Deduplicator, x: Double, cs: seq<Call>)
    requires Valid(d) && NoReset(cs)
    ensures var r1 := DeduplicateOptionalDouble(d, x);
            var d2 := Run(r1.state, cs);
            DeduplicateOptionalDouble(d2, x) == Out(r1.value, d2)
  {
    RunWithoutResetGrows(DeduplicateOptionalDouble(d, x).state, cs);
  }

  /** Once `deduplicateStringArray` has returned an array, every later call with an
      element-wise equal array, after any calls without `reset`, returns that same array. */
  lemma StringArrayCanonicalPersists(d: Deduplicator, x: Ref<StringArray>, cs: seq<Call>, y: Ref<StringArray>)
    requires Valid(d) && NoReset(cs) && Contents(y.val) == Contents(x.val)
    ensures var r1 := DeduplicateStringArray(d, Some(x));
            var d2 := Run(r1.state, cs);
            DeduplicateStringArray(d2, Some(y)) == Out(r1.value, d2)
  {
    RunWithoutResetGrows(DeduplicateStringArray(d, Some(x)).state, cs);
  }
}
