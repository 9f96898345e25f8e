/** The filter store (src/features/filters/filtersSlice.ts): four optional
    numbers, one setter action per field, and a reset. Numbers are integers
    in this model; `None` is `null`. */
module Filters {
  import opened Wrappers

  datatype FiltersState = FiltersState(
    genreId: Option<int>,
    year: Option<int>,
    ratingMin: Option<int>,
    ratingMax: Option<int>)

  /** Every field null. */
  const Initial: FiltersState := FiltersState(None, None, None, None)

  datatype Field = GenreId | Year | RatingMin | RatingMax

  /** The actions `setGenreId`, `setYear`, `setRatingMin`, `setRatingMax`
      (one per `Field`, carrying `number | null`) and `resetFilters`. */
  datatype Action = Set(field: Field, payload: Option<int>) | Reset

  function Get(s: FiltersState, f: Field): Option<int> {
    match f
    case GenreId => s.genreId
    case Year => s.year
    case RatingMin => s.ratingMin
    case RatingMax => s.ratingMax
  }

  /** JavaScript truthiness of a `number | null`: null and 0 are falsy. */
  predicate Truthy(v: Option<int>) {
    v.Some? && v.value != 0
  }

  /** Two states with the same four fields are the same state. */
  lemma FieldsDetermineState(s: FiltersState, t: FiltersState)
    requires forall f :: Get(s, f) == Get(t, f)
    ensures s == t
  {
    assert Get(s, GenreId) == Get(t, GenreId);
    assert Get(s, Year) == Get(t, Year);
    assert Get(s, RatingMin) == Get(t, RatingMin);
    assert Get(s, RatingMax) == Get(t, RatingMax);
  }

  /** The slice's reducer. A setter stores its payload verbatim (no range
      check, no coercion) in its own field and leaves the other three
      alone; a reset yields the initial state whatever came before. */
  function Reduce(s: FiltersState, a: Action): (r: FiltersState)
    ensures a.Set? ==> Get(r, a.field) == a.payload
    ensures a.Set? ==> forall g :: g != a.field ==> Get(r, g) == Get(s, g)
    ensures a.Reset? ==> forall g :: Get(r, g) == None
  {
    match a
    case Reset => Initial
    case Set(GenreId, p) => s.(genreId := p)
    case Set(Year, p) => s.(year := p)
    case Set(RatingMin, p) => s.(ratingMin := p)
    case Set(RatingMax, p) => s.(ratingMax := p)
  }

  /** The initial state has all four fields null. */
  lemma InitialAllNull()
    ensures forall f :: Get(Initial, f) == None
    ensures Initial == Reduce(FiltersState(Some(1), Some(2), Some(3), Some(4)), Reset)
  {
  }

  /** Resetting yields the initial state; resetting twice is resetting once. */
  lemma ResetIdempotent(s: FiltersState)
    ensures Reduce(s, Reset) == Initial
    ensures Reduce(Reduce(s, Reset), Reset) == Reduce(s, Reset)
  {
    FieldsDetermineState(Reduce(s, Reset), Initial);
  }

  /** Of two writes to the same field, the last one wins. */
  lemma LastWriteWins(s: FiltersState, f: Field, a: Option<int>, b: Option<int>)
    ensures Reduce(Reduce(s, Set(f, a)), Set(f, b)) == Reduce(s, Set(f, b))
  {
    FieldsDetermineState(Reduce(Reduce(s, Set(f, a)), Set(f, b)), Reduce(s, Set(f, b)));
  }

  /** Writes to different fields commute. */
  lemma SettersCommute(s: FiltersState, f: Field, a: Option<int>, g: Field, b: Option<int>)
    requires f != g
    ensures Reduce(Reduce(s, Set(f, a)), Set(g, b)) == Reduce(Reduce(s, Set(g, b)), Set(f, a))
  {
    FieldsDetermineState(Reduce(Reduce(s, Set(f, a)), Set(g, b)),
                         Reduce(Reduce(s, Set(g, b)), Set(f, a)));
  }

  /** Dispatches the actions in order. */
  function ReduceAll(s: FiltersState, acts: seq<Action>): FiltersState
    decreases |acts|
  {
    if acts == [] then s else ReduceAll(Reduce(s, acts[0]), acts[1..])
  }

  /** What an action writes into field `f`, if it writes it at all. */
  function Writes(a: Action, f: Field): Option<Option<int>> {
    match a
    case Reset => Some(None)
    case Set(g, p) => if g == f then Some(p) else None
  }

  /** The value the last action touching `f` wrote, if any did. */
  function LastWrite(acts: seq<Action>, f: Field): Option<Option<int>>
    decreases |acts|
  {
    if acts == [] then None
    else match Writes(acts[|acts| - 1], f)
      case Some(v) => Some(v)
      case None => LastWrite(acts[..|acts| - 1], f)
  }

  lemma {:induction false} ReduceAllSnoc(s: FiltersState, acts: seq<Action>, a: Action)
    ensures ReduceAll(s, acts + [a]) == Reduce(ReduceAll(s, acts), a)
    decreases |acts|
  {
    if acts == [] {
      assert acts + [a] == [a];
    } else {
      assert (acts + [a])[1..] == acts[1..] + [a];
      ReduceAllSnoc(Reduce(s, acts[0]), acts[1..], a);
    }
  }

  /** After any run of actions each field holds what the last action that
      touched it wrote (a setter's payload, or null for a reset), and its
      old value when no action touched it. */
  lemma {:induction false} FieldAfterActions(s: FiltersState, acts: seq<Action>, f: Field)
    ensures Get(ReduceAll(s, acts), f) == LastWrite(acts, f).GetOr(Get(s, f))
    decreases |acts|
  {
    if acts != [] {
      var init := acts[..|acts| - 1];
      var a := acts[|acts| - 1];
      assert acts == init + [a];
      ReduceAllSnoc(s, init, a);
      FieldAfterActions(s, init, f);
    }
  }
}
