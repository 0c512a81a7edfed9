/** Option and Result, plus the two loop shapes the converter uses over
    its block and descriptor lists: build one output per input, or a run of
    outputs per input, and stop at the first step that raises. */
module Wrappers {

  datatype Option<+T> = None | Some(value: T)

  /** The outcome of a step that may raise: `Err` carries what was raised. */
  datatype Result<+T, +E> = Ok(value: T) | Err(error: E)

  /** Applies `f` to each element in order and collects the results; the
      first failing element aborts the whole loop with its error, as an
      exception raised inside a Python `for` loop does. */
  function MapAll<A, B, E>(xs: seq<A>, f: A -> Result<B, E>): (r: Result<seq<B>, E>)
    ensures r.Ok? ==> |r.value| == |xs|
    ensures r.Ok? ==> forall i :: 0 <= i < |xs| ==> f(xs[i]) == Ok(r.value[i])
    ensures r.Err? ==>
      exists i :: 0 <= i < |xs| && f(xs[i]) == Err(r.error) &&
        forall j :: 0 <= j < i ==> f(xs[j]).Ok?
    decreases |xs|
  {
    if xs == [] then Ok([])
    else
      var init := xs[..|xs| - 1];
      match MapAll(init, f)
      case Err(e) => Err(e)
      case Ok(ys) =>
        match f(xs[|xs| - 1])
        case Err(e) => Err(e)
        case Ok(y) => Ok(ys + [y])
  }

  /** The result of MapAll is decided by the first failing element. */
  lemma FirstFailure<A, B, E>(xs: seq<A>, f: A -> Result<B, E>, i: nat)
    requires i < |xs| && f(xs[i]).Err?
    requires forall j :: 0 <= j < i ==> f(xs[j]).Ok?
    ensures MapAll(xs, f) == Err(f(xs[i]).error)
  {
    var r := MapAll(xs, f);
    if r.Err? {
      var k :| 0 <= k < |xs| && f(xs[k]) == Err(r.error) && forall j :: 0 <= j < k ==> f(xs[j]).Ok?;
      assert k == i;
    }
  }

  /** Mapping a concatenation is mapping each part. */
  lemma {:induction false} MapAllAppend<A, B, E>(xs: seq<A>, ys: seq<A>, f: A -> Result<B, E>)
    ensures MapAll(xs + ys, f).Ok? <==> MapAll(xs, f).Ok? && MapAll(ys, f).Ok?
    ensures MapAll(xs + ys, f).Ok? ==>
      MapAll(xs + ys, f).value == MapAll(xs, f).value + MapAll(ys, f).value
    decreases |ys|
  {
    if ys == [] {
      assert xs + ys == xs;
    } else {
      var init := ys[..|ys| - 1];
      assert (xs + ys)[..|xs + ys| - 1] == xs + init;
      assert (xs + ys)[|xs + ys| - 1] == ys[|ys| - 1];
      MapAllAppend(xs, init, f);
    }
  }

  /** Concatenation of a sequence of runs, in order. */
  function Flatten<T>(parts: seq<seq<T>>): seq<T>
    decreases |parts|
  {
    if parts == [] then [] else Flatten(parts[..|parts| - 1]) + parts[|parts| - 1]
  }

  lemma {:induction false} FlattenAppend<T>(a: seq<seq<T>>, b: seq<seq<T>>)
    ensures Flatten(a + b) == Flatten(a) + Flatten(b)
    decreases |b|
  {
    if b == [] {
      assert a + b == a;
    } else {
      var init, last := b[..|b| - 1], b[|b| - 1];
      assert (a + b)[..|a + b| - 1] == a + init && (a + b)[|a + b| - 1] == last;
      FlattenAppend(a, init);
      assert Flatten(a + b) == (Flatten(a) + Flatten(init)) + last;
      assert Flatten(b) == Flatten(init) + last;
    }
  }

  /** Applies `f` to each element in order and concatenates the runs it
      returns; the first failing element aborts the whole loop. */
  function FlatMapAll<A, B, E>(xs: seq<A>, f: A -> Result<seq<B>, E>): Result<seq<B>, E>
  {
    match MapAll(xs, f)
    case Ok(parts) => Ok(Flatten(parts))
    case Err(e) => Err(e)
  }

  /** The runs of `xs` all come before the runs of `ys`. */
  lemma FlatMapAllAppend<A, B, E>(xs: seq<A>, ys: seq<A>, f: A -> Result<seq<B>, E>)
    ensures FlatMapAll(xs + ys, f).Ok? <==> FlatMapAll(xs, f).Ok? && FlatMapAll(ys, f).Ok?
    ensures FlatMapAll(xs + ys, f).Ok? ==>
      FlatMapAll(xs + ys, f).value == FlatMapAll(xs, f).value + FlatMapAll(ys, f).value
  {
    MapAllAppend(xs, ys, f);
    if MapAll(xs + ys, f).Ok? {
      FlattenAppend(MapAll(xs, f).value, MapAll(ys, f).value);
    }
  }

  /** One more element appends its run, or its error if the prefix succeeded. */
  lemma FlatMapAllSnoc<A, B, E>(xs: seq<A>, x: A, f: A -> Result<seq<B>, E>)
    ensures FlatMapAll(xs + [x], f) ==
      match FlatMapAll(xs, f)
      case Err(e) => Err(e)
      case Ok(done) => (match f(x) case Err(e) => Err(e) case Ok(run) => Ok(done + run))
  {
    assert (xs + [x])[..|xs + [x]| - 1] == xs;
    if MapAll(xs, f).Ok? && f(x).Ok? {
      var parts := MapAll(xs, f).value + [f(x).value];
      assert parts[..|parts| - 1] == MapAll(xs, f).value;
    }
  }
}
