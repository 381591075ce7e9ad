/** The filter of a hybrid movie search (`create_filter`).

    The Python function returns the dictionary
    `{"query": {"conjuncts": [...]}}` handed to Couchbase Full-Text Search as
    the raw search options; here that dictionary is `Filter`, and each entry of
    the conjunction list is a `Condition`. */
module FilterBuilder {
  import opened Wrappers

  /** Document attributes the filter refers to. */
  const YearField: string := "Released_Year"
  const RatingField: string := "IMDB_Rating"
  const TitleField: string := "Series_Title"

  /** One entry of the conjunction list. `Range` is the year query
      (`min`, `max`, `inclusive_min`, `inclusive_max`), `Threshold` the rating
      query (`min` as `minimum`, `inclusive_min`, no upper bound) and `Phrase` the
      `match_phrase` query. */
  datatype Condition =
    | Range(field: string, min: int, max: int, inclusiveMin: bool, inclusiveMax: bool)
    | Threshold(field: string, minimum: real, inclusiveMin: bool)
    | Phrase(field: string, matchPhrase: string)

  /** `{"query": {"conjuncts": conjuncts}}` */
  datatype Filter = Filter(conjuncts: seq<Condition>)

  /** Indexing a tuple past its end raises `IndexError`. */
  datatype FilterError = IndexError(index: nat, length: nat)

  // ---------------------------------------------------------------------------
  // Which inputs are present: each is decided by Python truthiness.
  // ---------------------------------------------------------------------------

  /** The year tuple is truthy when it is not empty (`None` is modelled as the empty tuple). */
  predicate YearPresent(yearRange: seq<int>) {
    |yearRange| > 0
  }

  /** The rating is truthy when it is not `None` and not zero. */
  predicate RatingPresent(rating: Option<real>) {
    rating.Some? && rating.value != 0.0
  }

  /** The title condition is switched on by the flag alone, whatever the title. */
  predicate TitlePresent(searchInTitle: bool) {
    searchInTitle
  }

  /** How many of the three conditions are present. */
  function PresentCount(yearRange: seq<int>, rating: Option<real>, searchInTitle: bool): nat {
    (if YearPresent(yearRange) then 1 else 0)
    + (if RatingPresent(rating) then 1 else 0)
    + (if TitlePresent(searchInTitle) then 1 else 0)
  }

  // ---------------------------------------------------------------------------
  // The three conditions and the expected conjunction.
  // ---------------------------------------------------------------------------

  /** Both year bounds inclusive, taken from the first two tuple entries as they are. */
  function YearCondition(yearRange: seq<int>): Condition
    requires |yearRange| >= 2
  {
    Range(YearField, yearRange[0], yearRange[1], true, true)
  }

  /** A strict lower bound on the rating, no upper bound. */
  function RatingCondition(rating: real): Condition {
    Threshold(RatingField, rating, false)
  }

  /** The title phrase, verbatim. */
  function TitleCondition(title: string): Condition {
    Phrase(TitleField, title)
  }

  /** The position of a kind of condition in the fixed order year, rating, title. */
  function Rank(c: Condition): nat {
    match c
    case Range(_, _, _, _, _) => 0
    case Threshold(_, _, _) => 1
    case Phrase(_, _) => 2
  }

  /** The conjunction `create_filter` returns: the present conditions, in the
      order year, rating, title. Undefined for a one-element year tuple, on
      which the source raises. */
  function Conjuncts(yearRange: seq<int>, rating: Option<real>, searchInTitle: bool, title: string): (cs: seq<Condition>)
    requires |yearRange| != 1
    ensures |cs| == PresentCount(yearRange, rating, searchInTitle) <= 3
  {
    (if YearPresent(yearRange) then [YearCondition(yearRange)] else [])
    + (if RatingPresent(rating) then [RatingCondition(rating.value)] else [])
    + (if TitlePresent(searchInTitle) then [TitleCondition(title)] else [])
  }

  // ---------------------------------------------------------------------------
  // The operation.
  // ---------------------------------------------------------------------------

  /** `create_filter`: appends the present conditions to a list one by one and
      wraps the list as the query's conjunction. Reading the second entry of a
      one-element year tuple raises `IndexError`. The method changes no state,
      so equal inputs give equal filters. */
  method CreateFilter(yearRange: seq<int>, rating: Option<real>, searchInTitle: bool, title: string)
    returns (r: Result<Filter, FilterError>)
    ensures r.Err? <==> |yearRange| == 1
    ensures r.Err? ==> r.error == IndexError(1, 1)
    ensures r.Ok? ==> r.value.conjuncts == Conjuncts(yearRange, rating, searchInTitle, title)
  {
    var operations: seq<Condition> := [];
    if YearPresent(yearRange) {
      if |yearRange| < 2 {
        return Err(IndexError(1, |yearRange|));
      }
      operations := operations + [Range(YearField, yearRange[0], yearRange[1], true, true)];
    }
    if RatingPresent(rating) {
      operations := operations + [Threshold(RatingField, rating.value, false)];
    }
    if TitlePresent(searchInTitle) {
      operations := operations + [Phrase(TitleField, title)];
    }
    r := Ok(Filter(operations));
  }

  // ---------------------------------------------------------------------------
  // What the conjunction is.
  // ---------------------------------------------------------------------------

  /** With no condition present the filter is the empty conjunction. */
  lemma NothingPresentGivesEmptyConjunction(yearRange: seq<int>, rating: Option<real>, searchInTitle: bool, title: string)
    requires !YearPresent(yearRange) && !RatingPresent(rating) && !TitlePresent(searchInTitle)
    ensures Conjuncts(yearRange, rating, searchInTitle, title) == []
  {
  }

  /** The conditions appear in the order year, rating, title, each kind at most once. */
  lemma ConjunctsOrdered(yearRange: seq<int>, rating: Option<real>, searchInTitle: bool, title: string)
    requires |yearRange| != 1
    ensures var cs := Conjuncts(yearRange, rating, searchInTitle, title);
      forall i, j :: 0 <= i < j < |cs| ==> Rank(cs[i]) < Rank(cs[j])
  {
  }

  /** The year condition appears exactly when the year tuple is non-empty, and
      then it is the inclusive range over the first two entries, whatever
      their order. */
  lemma {:induction false} YearConditionIff(yearRange: seq<int>, rating: Option<real>, searchInTitle: bool, title: string)
    requires |yearRange| != 1
    ensures var cs := Conjuncts(yearRange, rating, searchInTitle, title);
      (exists c :: c in cs && c.Range?) <==> YearPresent(yearRange)
    ensures var cs := Conjuncts(yearRange, rating, searchInTitle, title);
      forall c :: c in cs && c.Range? ==>
        c.field == YearField && c.min == yearRange[0] && c.max == yearRange[1]
        && c.inclusiveMin && c.inclusiveMax
  {
    var cs := Conjuncts(yearRange, rating, searchInTitle, title);
    if YearPresent(yearRange) {
      assert cs[0] in cs;
    }
  }

  /** The rating condition appears exactly when the rating is truthy (so a
      rating of 0.0 adds nothing), with the rating as a strict lower bound. */
  lemma {:induction false} RatingConditionIff(yearRange: seq<int>, rating: Option<real>, searchInTitle: bool, title: string)
    requires |yearRange| != 1
    ensures var cs := Conjuncts(yearRange, rating, searchInTitle, title);
      (exists c :: c in cs && c.Threshold?) <==> RatingPresent(rating)
    ensures var cs := Conjuncts(yearRange, rating, searchInTitle, title);
      forall c :: c in cs && c.Threshold? ==>
        c.field == RatingField && c.minimum == rating.value && !c.inclusiveMin
  {
    var cs := Conjuncts(yearRange, rating, searchInTitle, title);
    if RatingPresent(rating) {
      var k := if YearPresent(yearRange) then 1 else 0;
      assert cs[k] in cs;
    }
  }

  /** The title condition appears exactly when the flag is set, and carries the
      title verbatim, even an empty one. */
  lemma {:induction false} TitleConditionIff(yearRange: seq<int>, rating: Option<real>, searchInTitle: bool, title: string)
    requires |yearRange| != 1
    ensures var cs := Conjuncts(yearRange, rating, searchInTitle, title);
      (exists c :: c in cs && c.Phrase?) <==> TitlePresent(searchInTitle)
    ensures var cs := Conjuncts(yearRange, rating, searchInTitle, title);
      forall c :: c in cs && c.Phrase? ==> c == Phrase(TitleField, title)
  {
    var cs := Conjuncts(yearRange, rating, searchInTitle, title);
    if TitlePresent(searchInTitle) {
      assert cs[|cs| - 1] in cs;
    }
  }

  /** A reversed year range is passed through unchanged. */
  lemma ReversedYearRangePassesThrough()
    ensures Conjuncts([2020, 1990], None, false, "") == [Range(YearField, 2020, 1990, true, true)]
  {
  }

  // ---------------------------------------------------------------------------
  // What the filter is meant to select (an intended reading of the flags,
  // not the search engine's proved behaviour): a document passes a range
  // query when its number lies within the bounds, each bound inclusive or
  // strict as flagged; it passes a phrase query when the phrase occurs in the
  // text; it passes a conjunction when it passes every entry, so the empty
  // conjunction admits every document.
  // ---------------------------------------------------------------------------

  /** A stored attribute value. */
  datatype Value = Int(i: int) | Num(x: real) | Text(s: string)

  /** A stored document, by attribute name. */
  type Document = map<string, Value>

  /** The attribute as a number, if it is one. */
  function NumberAt(doc: Document, field: string): Option<real> {
    if field !in doc then None
    else match doc[field]
      case Int(i) => Some(i as real)
      case Num(x) => Some(x)
      case Text(_) => None
  }

  /** `phrase` occurs as a contiguous part of `text`. */
  predicate Occurs(phrase: string, text: string)
    decreases |text|
  {
    phrase <= text || (|text| > 0 && Occurs(phrase, text[1..]))
  }

  predicate AboveMin(v: real, min: real, inclusive: bool) {
    if inclusive then min <= v else min < v
  }

  predicate BelowMax(v: real, max: real, inclusive: bool) {
    if inclusive then v <= max else v < max
  }

  /** Whether a document satisfies one condition. */
  predicate Holds(c: Condition, doc: Document) {
    match c
    case Range(f, lo, hi, incLo, incHi) =>
      NumberAt(doc, f).Some?
      && AboveMin(NumberAt(doc, f).value, lo as real, incLo)
      && BelowMax(NumberAt(doc, f).value, hi as real, incHi)
    case Threshold(f, lo, incLo) =>
      NumberAt(doc, f).Some? && AboveMin(NumberAt(doc, f).value, lo, incLo)
    case Phrase(f, p) =>
      f in doc && doc[f].Text? && Occurs(p, doc[f].s)
  }

  /** Whether a document satisfies a whole filter. */
  predicate Matches(filter: Filter, doc: Document) {
    forall i :: 0 <= i < |filter.conjuncts| ==> Holds(filter.conjuncts[i], doc)
  }

  /** The empty conjunction lets every document through. */
  lemma EmptyConjunctionMatchesAll(doc: Document)
    ensures Matches(Filter([]), doc)
  {
  }

  /** A conjunction of two lists holds when each list holds. */
  lemma MatchesConcat(a: seq<Condition>, b: seq<Condition>, doc: Document)
    ensures Matches(Filter(a + b), doc) <==> Matches(Filter(a), doc) && Matches(Filter(b), doc)
  {
    if Matches(Filter(a), doc) && Matches(Filter(b), doc) {
      forall i | 0 <= i < |a + b| ensures Holds((a + b)[i], doc) {
        if i >= |a| {
          assert (a + b)[i] == b[i - |a|];
        }
      }
    }
    if Matches(Filter(a + b), doc) {
      forall i | 0 <= i < |a| ensures Holds(a[i], doc) {
        assert (a + b)[i] == a[i];
      }
      forall i | 0 <= i < |b| ensures Holds(b[i], doc) {
        assert (a + b)[|a| + i] == b[i];
      }
    }
  }

  /** A list of at most one condition holds when that condition, if there, holds. */
  lemma MatchesOptional(present: bool, c: Condition, doc: Document)
    ensures Matches(Filter(if present then [c] else []), doc) <==> (present ==> Holds(c, doc))
  {
    if present {
      assert Filter([c]).conjuncts[0] == c;
    }
  }

  /** A document passes the filter built from the inputs exactly when its year
      lies in the (inclusive) year range if one is given, its rating strictly
      exceeds the minimum rating if that is truthy, and the title contains the
      phrase if title search is on. */
  lemma {:induction false} FilterMeaning(yearRange: seq<int>, rating: Option<real>, searchInTitle: bool, title: string, doc: Document)
    requires |yearRange| != 1
    ensures Matches(Filter(Conjuncts(yearRange, rating, searchInTitle, title)), doc) <==>
      (YearPresent(yearRange) ==>
         NumberAt(doc, YearField).Some?
         && yearRange[0] as real <= NumberAt(doc, YearField).value <= yearRange[1] as real)
      && (RatingPresent(rating) ==>
         NumberAt(doc, RatingField).Some? && rating.value < NumberAt(doc, RatingField).value)
      && (TitlePresent(searchInTitle) ==>
         TitleField in doc && doc[TitleField].Text? && Occurs(title, doc[TitleField].s))
  {
    var ys := if YearPresent(yearRange) then [YearCondition(yearRange)] else [];
    var rs := if RatingPresent(rating) then [RatingCondition(rating.value)] else [];
    var ts := if TitlePresent(searchInTitle) then [TitleCondition(title)] else [];
    assert Conjuncts(yearRange, rating, searchInTitle, title) == ys + rs + ts;
    MatchesConcat(ys + rs, ts, doc);
    MatchesConcat(ys, rs, doc);
    if YearPresent(yearRange) {
      MatchesOptional(true, YearCondition(yearRange), doc);
    }
    if RatingPresent(rating) {
      MatchesOptional(true, RatingCondition(rating.value), doc);
    }
    MatchesOptional(TitlePresent(searchInTitle), TitleCondition(title), doc);
  }

  /** The rating bound is strict: a document whose rating equals a truthy
      minimum rating is filtered out. */
  lemma {:induction false} RatingTieExcluded(yearRange: seq<int>, rating: real, searchInTitle: bool, title: string, doc: Document)
    requires |yearRange| != 1
    requires rating != 0.0
    requires RatingField in doc && doc[RatingField] == Num(rating)
    ensures !Matches(Filter(Conjuncts(yearRange, Some(rating), searchInTitle, title)), doc)
  {
    FilterMeaning(yearRange, Some(rating), searchInTitle, title, doc);
  }
}
