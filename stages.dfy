/**
  Reference definitions of the three pipeline stages as functions from the
  stores' contents before an item to the contents after it and the stage's
  result, and the properties those stages keep. The imperative stages in
  module Pipelines are proved equal to these functions.
 */
module Stages {
  import opened Wrappers
  import opened PyInt
  import opened Lifecycle
  import opened Items

  /** The movie table, the actor table and the movie document collection (keyed by `mid`). */
  datatype State = State(movies: Table, actors: Table, docs: map<int, MovieDoc>)

  const Empty := State(map[], map[], map[])

  /** The unique index on `mid`: each document sits under its own `mid`. */
  ghost predicate DocsKeyed(docs: map<int, MovieDoc>) {
    forall k | k in docs :: docs[k].mid == k
  }

  /** The exceptions that escape a stage: a missing item field, or `int()` refusing an id. */
  datatype PyError = KeyError(key: string) | ValueError(value: RawId)

  /**
    What `process_item` gives back: an item, a `DropItem` (which the movie
    stage returns rather than raises), or an exception that escapes.
   */
  datatype Outcome = Returned(item: Item) | Dropped(reason: string) | Raised(error: PyError)

  datatype Step = Step(state: State, out: Outcome)

  /** The ids `int()` converts before the first one it refuses, and that one, if any. */
  datatype Conversion = Conversion(ok: seq<int>, failed: Option<RawId>)

  /** Converting a list of ids one by one, stopping at the first ValueError. */
  function Convert(raws: seq<RawId>): Conversion
    decreases |raws|
  {
    if raws == [] then Conversion([], None)
    else
      var c := Convert(raws[..|raws| - 1]);
      var last := raws[|raws| - 1];
      if c.failed.Some? then c
      else match ToInt(last)
        case None => Conversion(c.ok, Some(last))
        case Some(n) => Conversion(c.ok + [n], None)
  }

  /**
    What a conversion yields: the values of the ids before the first one
    `int()` refuses, and that id; with no refusal, the values of all of them.
   */
  lemma {:induction false} ConvertSpec(raws: seq<RawId>)
    ensures var r := Convert(raws);
            && |r.ok| <= |raws|
            && (forall i | 0 <= i < |r.ok| :: ToInt(raws[i]) == Some(r.ok[i]))
            && (r.failed.None? ==> |r.ok| == |raws|)
            && (r.failed.Some? ==> |r.ok| < |raws| && r.failed.value == raws[|r.ok|] && ToInt(raws[|r.ok|]).None?)
    decreases |raws|
  {
    if raws != [] {
      var p := raws[..|raws| - 1];
      var last := raws[|raws| - 1];
      ConvertSpec(p);
      var c := Convert(p);
      assert forall i | 0 <= i < |p| :: raws[i] == p[i];
      if c.failed.None? {
        match ToInt(last)
        case None =>
          assert Convert(raws) == Conversion(c.ok, Some(last));
        case Some(n) =>
          assert Convert(raws) == Conversion(c.ok + [n], None);
      } else {
        assert Convert(raws) == c;
      }
    }
  }

  /** Once a prefix has failed, the rest of the list is never looked at. */
  lemma {:induction false} ConvertFailureStays(raws: seq<RawId>, i: nat, j: nat)
    requires i <= j <= |raws| && Convert(raws[..i]).failed.Some?
    ensures Convert(raws[..j]) == Convert(raws[..i])
    decreases j
  {
    if j > i {
      ConvertFailureStays(raws, i, j - 1);
      assert raws[..j][..j - 1] == raws[..j - 1];
    }
  }

  /** An id `int()` refuses ends the conversion of the whole list there. */
  lemma ConvertStops(raws: seq<RawId>, i: nat)
    requires i < |raws| && Convert(raws[..i]).failed.None? && ToInt(raws[i]).None?
    ensures Convert(raws) == Conversion(Convert(raws[..i]).ok, Some(raws[i]))
  {
    assert raws[..i + 1][..i] == raws[..i];
    ConvertFailureStays(raws, i + 1, |raws|);
    assert raws[..|raws|] == raws;
  }

  /** An id `int()` accepts extends the converted prefix by its value. */
  lemma ConvertContinues(raws: seq<RawId>, i: nat)
    requires i < |raws| && Convert(raws[..i]).failed.None? && ToInt(raws[i]).Some?
    ensures Convert(raws[..i + 1]) == Conversion(Convert(raws[..i]).ok + [ToInt(raws[i]).value], None)
  {
    assert raws[..i + 1][..i] == raws[..i];
  }

  /** Creating the rows of a converted prefix, one id at a time. */
  lemma InsertConvertedNext(t: Table, raws: seq<RawId>, i: nat)
    requires i < |raws| && Convert(raws[..i]).failed.None? && ToInt(raws[i]).Some?
    ensures Convert(raws[..i + 1]).failed.None?
    ensures InsertAll(t, Convert(raws[..i + 1]).ok)
         == Insert(InsertAll(t, Convert(raws[..i]).ok), ToInt(raws[i]).value)
  {
    ConvertContinues(raws, i);
    InsertAllSnoc(t, Convert(raws[..i]).ok, ToInt(raws[i]).value);
  }

  /** When a whole list converts, creating the converted ids leaves a row for each of them. */
  lemma InsertConvertedHasAll(t: Table, raws: seq<RawId>)
    requires Convert(raws).failed.None?
    ensures forall i | 0 <= i < |raws| :: ToInt(raws[i]).Some? && ToInt(raws[i]).value in InsertAll(t, Convert(raws).ok)
  {
    var ok := Convert(raws).ok;
    ConvertSpec(raws);
    InsertAllSpec(t, ok);
    forall i | 0 <= i < |raws|
      ensures ToInt(raws[i]).Some? && ToInt(raws[i]).value in InsertAll(t, ok)
    {
      assert ToInt(raws[i]) == Some(ok[i]);
      assert ok[i] in ok;
    }
  }

  /** A prefix of ids that `int()` all accepts converts to their values. */
  lemma {:induction false} ConvertPrefixConverts(raws: seq<RawId>, j: nat)
    requires j <= |raws|
    requires forall k | 0 <= k < j :: ToInt(raws[k]).Some?
    ensures Convert(raws[..j]).failed.None? && |Convert(raws[..j]).ok| == j
    ensures forall k | 0 <= k < j :: Convert(raws[..j]).ok[k] == ToInt(raws[k]).value
    decreases j
  {
    if j > 0 {
      ConvertPrefixConverts(raws, j - 1);
      ConvertContinues(raws, j - 1);
      var p, v := Convert(raws[..j - 1]).ok, ToInt(raws[j - 1]).value;
      assert Convert(raws[..j]).ok == p + [v];
      forall k | 0 <= k < j ensures Convert(raws[..j]).ok[k] == ToInt(raws[k]).value {
        if k < j - 1 {
          assert (p + [v])[k] == p[k];
        }
      }
    }
  }

  /**
    When the first id `int()` refuses sits at index `i`, the conversion fails
    with it and has converted exactly the ids before it.
   */
  lemma {:induction false} ConvertFirstFailure(raws: seq<RawId>, i: nat)
    requires i < |raws| && ToInt(raws[i]).None?
    requires forall j | 0 <= j < i :: ToInt(raws[j]).Some?
    ensures Convert(raws).failed == Some(raws[i])
    ensures |Convert(raws).ok| == i
    ensures forall j | 0 <= j < i :: Convert(raws).ok[j] == ToInt(raws[j]).value
  {
    ConvertPrefixConverts(raws, i);
    ConvertStops(raws, i);
  }

  /** The actor ids `_store_actors` creates: those of the credits with `aid > 0`, in order. */
  function PositiveAids(credits: seq<Credit>): seq<int>
    decreases |credits|
  {
    if credits == [] then []
    else
      var rest := PositiveAids(credits[..|credits| - 1]);
      var c := credits[|credits| - 1];
      if c.aid > 0 then rest + [c.aid] else rest
  }

  /** Every credit with a positive id contributes it, and nothing else comes in. */
  lemma {:induction false} PositiveAidsSpec(credits: seq<Credit>)
    ensures forall c | c in credits && c.aid > 0 :: c.aid in PositiveAids(credits)
    ensures forall x | x in PositiveAids(credits) :: x > 0 && exists c | c in credits :: c.aid == x
    decreases |credits|
  {
    if credits != [] {
      var p := credits[..|credits| - 1];
      PositiveAidsSpec(p);
      assert credits == p + [credits[|credits| - 1]];
      assert forall c :: c in credits <==> c in p || c == credits[|credits| - 1];
    }
  }

  /** All actor ids a movie result references, in the order the stage creates them. */
  function CreditedAids(item: Item): seq<int>
    requires item.MovieItem?
  {
    PositiveAids(item.directors) + PositiveAids(item.writers) + PositiveAids(item.casts)
  }

  /** The three `_store_actors` calls of the movie stage: directors, writers, then cast. */
  function StoreActorsOf(actors: Table, item: Item): Table
    requires item.MovieItem?
  {
    InsertAll(InsertAll(InsertAll(actors, PositiveAids(item.directors)), PositiveAids(item.writers)),
              PositiveAids(item.casts))
  }

  /** The three calls create exactly the rows one batch of all credited ids would. */
  lemma StoreActorsOfAll(actors: Table, item: Item)
    requires item.MovieItem?
    ensures StoreActorsOf(actors, item) == InsertAll(actors, CreditedAids(item))
  {
    var pd, pw, pc := PositiveAids(item.directors), PositiveAids(item.writers), PositiveAids(item.casts);
    InsertAllAppend(actors, pd, pw);
    InsertAllAppend(actors, pd + pw, pc);
  }

  /** Ids that are already integers always convert, to themselves. */
  lemma ConvertIntVals(raws: seq<RawId>)
    requires forall i | 0 <= i < |raws| :: raws[i].IntVal?
    ensures Convert(raws).failed.None? && |Convert(raws).ok| == |raws|
    ensures forall i | 0 <= i < |raws| :: Convert(raws).ok[i] == raws[i].n
  {
    ConvertSpec(raws);
  }

  const DuplicateKeyPrefix := "Mongodb: DuplicateKey: "

  /** `'Mongodb: DuplicateKey: {:d}'.format(mid)`. */
  function DuplicateKeyMessage(mid: int): string {
    DuplicateKeyPrefix + ShowInt(mid)
  }

  /** The drop message names the movie: the `mid` can be read back from it. */
  lemma DuplicateKeyMessageNamesMid(mid: int)
    ensures |DuplicateKeyMessage(mid)| > |DuplicateKeyPrefix|
    ensures DuplicateKeyMessage(mid)[..|DuplicateKeyPrefix|] == DuplicateKeyPrefix
    ensures ToInt(StrVal(DuplicateKeyMessage(mid)[|DuplicateKeyPrefix|..])) == Some(mid)
  {
    var m := DuplicateKeyMessage(mid);
    assert m[|DuplicateKeyPrefix|..] == ShowInt(mid);
    ShowIntRoundTrip(mid);
  }

  /** `SeedPipeline.process_item`. */
  function SeedStep(s: State, item: Item, spider: Spider): Step {
    if spider != SeedSpider then Step(s, Returned(item))
    else if !(item.SeedItem? || item.ActorItem?) then Step(s, Raised(KeyError("mids")))
    else
      var c := Convert(item.mids);
      Step(s.(movies := InsertAll(s.movies, c.ok)),
           if c.failed.Some? then Raised(ValueError(c.failed.value)) else Returned(item))
  }

  /** `MoviePipeline.process_item`. */
  function MovieStep(s: State, item: Item, spider: Spider): Step {
    if spider != MovieSpider && spider != MovieLoginSpider then Step(s, Returned(item))
    else if item.Movie404Item? then
      var movies :=
        if item.loggedIn then Update(s.movies, item.mid, Some(Broken), Some(true))
        else Update(s.movies, item.mid, Some(Login), None);
      Step(s.(movies := movies), Returned(item))
    else if item.MovieItem? then
      var actors := StoreActorsOf(s.actors, item);
      var c := Convert(item.recommendations);
      var discovered := InsertAll(s.movies, c.ok);
      if c.failed.Some? then
        Step(State(discovered, actors, s.docs), Raised(ValueError(c.failed.value)))
      else
        var movies := Update(discovered, item.mid, None, Some(true));
        if item.mid in s.docs then
          Step(State(movies, actors, s.docs), Dropped(DuplicateKeyMessage(item.mid)))
        else
          Step(State(movies, actors, s.docs[item.mid := ToDocument(item)]), Returned(item))
    else Step(s, Raised(KeyError("mid")))
  }

  /** `ActorPipeline.process_item`. */
  function ActorStep(s: State, item: Item, spider: Spider): Step {
    if spider != ActorSpider then Step(s, Returned(item))
    else if item.Actor404Item? then
      Step(s.(actors := Update(s.actors, item.aid, Some(Broken), Some(true))), Returned(item))
    else if item.ActorItem? then
      var actors := if item.finished then Update(s.actors, item.aid, None, Some(true)) else s.actors;
      var c := Convert(item.mids);
      Step(State(InsertAll(s.movies, c.ok), actors, s.docs),
           if c.failed.Some? then Raised(ValueError(c.failed.value)) else Returned(item))
    else Step(s, Raised(KeyError("aid")))
  }

  /** What every stage keeps: no row vanishes, no `crawled` flag is reset, no document changes. */
  ghost predicate Evolves(s: State, t: State) {
    && Grows(s.movies, t.movies)
    && Grows(s.actors, t.actors)
    && forall k | k in s.docs :: k in t.docs && t.docs[k] == s.docs[k]
  }
}
