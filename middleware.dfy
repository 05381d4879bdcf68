/** Composition of middleware: a middleware turns a handler into a handler, and `Chain` stacks
    several so that the first one given is the outermost layer. */
module Middleware {

  /** The handlers the middleware `ms` make of `h`: `ms[0]` around `ms[1]` around ... `h`. */
  function Nest<H>(ms: seq<H -> H>, h: H): (r: H)
    ensures ms != [] ==> r == Nest(ms[..|ms| - 1], ms[|ms| - 1](h))
    decreases |ms|
  {
    if ms == [] then h
    else
      assert |ms| > 1 ==> ms[..|ms| - 1][1..] == ms[1..][..|ms| - 2] && ms[1..][|ms| - 2] == ms[|ms| - 1];
      ms[0](Nest(ms[1..], h))
  }

  /** `Chain(ms...)` applied to `final`: the middleware are applied from the last to the first. */
  method Chain<H>(ms: seq<H -> H>, final: H) returns (h: H)
    ensures h == Nest(ms, final)
  {
    h := final;
    var i := |ms|;
    assert ms[..i] == ms;
    while i > 0
      invariant 0 <= i <= |ms|
      invariant Nest(ms, final) == Nest(ms[..i], h)
    {
      i := i - 1;
      NestAppend(ms[..i], [ms[i]], h);
      assert ms[..i + 1] == ms[..i] + [ms[i]];
      assert Nest([ms[i]], h) == ms[i](h) by {
        assert [ms[i]][1..] == [];
      }
      h := ms[i](h);
    }
    assert ms[..0] == [];
  }

  /** Stacking `xs` and then `ys` is stacking `ys` inside `xs`. */
  lemma {:induction false} NestAppend<H>(xs: seq<H -> H>, ys: seq<H -> H>, h: H)
    ensures Nest(xs + ys, h) == Nest(xs, Nest(ys, h))
    decreases |xs|
  {
    if xs == [] {
      assert xs + ys == ys;
    } else {
      assert (xs + ys)[0] == xs[0];
      assert (xs + ys)[1..] == xs[1..] + ys;
      NestAppend(xs[1..], ys, h);
    }
  }

  /** An empty chain leaves the handler as it is; a chain of one is that middleware. */
  lemma NestShort<H>(m: H -> H, h: H)
    ensures Nest([], h) == h
    ensures Nest([m], h) == m(h)
  {
    assert [m][1..] == [];
  }

  lemma NestThree<H>(a: H -> H, b: H -> H, c: H -> H, h: H)
    ensures Nest([a, b, c], h) == a(b(c(h)))
  {
    assert [a, b, c][1..] == [b, c];
    assert [b, c][1..] == [c];
    assert [c][1..] == [];
    assert Nest([c], h) == c(h);
    assert Nest([b, c], h) == b(Nest([c], h));
  }

  // ---------------------------------------------------------------------------------------
  // Order of effects: handlers that record what they do
  // ---------------------------------------------------------------------------------------

  type Trace = seq<string>

  /** A handler seen through what it appends to a shared record. */
  type Handler = Trace -> Trace

  /** A middleware that records `name-before`, calls the next handler, then records
      `name-after`. */
  function Marker(name: string): Handler -> Handler
  {
    (next: Handler) => (t: Trace) => next(t + [name + "-before"]) + [name + "-after"]
  }

  function Markers(names: seq<string>): (ms: seq<Handler -> Handler>)
    ensures |ms| == |names|
    decreases |names|
  {
    if names == [] then [] else [Marker(names[0])] + Markers(names[1..])
  }

  /** `name-before` for each name, in the order given. */
  function Befores(names: seq<string>): Trace
    decreases |names|
  {
    if names == [] then [] else [names[0] + "-before"] + Befores(names[1..])
  }

  /** `name-after` for each name, in reverse order. */
  function Afters(names: seq<string>): Trace
    decreases |names|
  {
    if names == [] then [] else Afters(names[1..]) + [names[0] + "-after"]
  }

  /** Under a chain of markers the `before` records come in argument order, then the handler's
      own, then the `after` records in reverse order. */
  lemma {:induction false} MarkerOrder(names: seq<string>, h: Handler, t: Trace)
    ensures Nest(Markers(names), h)(t) == h(t + Befores(names)) + Afters(names)
    decreases |names|
  {
    if names == [] {
      assert t + [] == t;
      assert h(t) + [] == h(t);
    } else {
      var ms := Markers(names);
      assert ms[0] == Marker(names[0]) && ms[1..] == Markers(names[1..]);
      var b := [names[0] + "-before"];
      MarkerOrder(names[1..], h, t + b);
      assert (t + b) + Befores(names[1..]) == t + Befores(names);
      assert h(t + Befores(names)) + Afters(names[1..]) + [names[0] + "-after"]
          == h(t + Befores(names)) + Afters(names);
    }
  }

  /** The handler that records `handler`. */
  function Recorder(): Handler
  {
    (t: Trace) => t + ["handler"]
  }

  /** A, B and C around the recording handler. */
  lemma ThreeMarkers(t: Trace)
    requires t == []
    ensures Nest(Markers(["A", "B", "C"]), Recorder())(t)
         == ["A-before", "B-before", "C-before", "handler", "C-after", "B-after", "A-after"]
  {
    var names := ["A", "B", "C"];
    MarkerOrder(names, Recorder(), t);
    ThreeBefores(names);
    ThreeAfters(names);
  }

  lemma ThreeBefores(names: seq<string>)
    requires names == ["A", "B", "C"]
    ensures Befores(names) == ["A-before", "B-before", "C-before"]
  {
    assert names[1..] == ["B", "C"] && names[1..][1..] == ["C"] && names[1..][1..][1..] == [];
    assert "A" + "-before" == "A-before" && "B" + "-before" == "B-before" && "C" + "-before" == "C-before";
    assert Befores(["C"]) == ["C-before"];
    assert Befores(["B", "C"]) == ["B-before", "C-before"];
  }

  lemma ThreeAfters(names: seq<string>)
    requires names == ["A", "B", "C"]
    ensures Afters(names) == ["C-after", "B-after", "A-after"]
  {
    assert names[1..] == ["B", "C"] && names[1..][1..] == ["C"] && names[1..][1..][1..] == [];
    assert "A" + "-after" == "A-after" && "B" + "-after" == "B-after" && "C" + "-after" == "C-after";
    assert Afters(["C"]) == ["C-after"];
    assert Afters(["B", "C"]) == ["C-after", "B-after"];
  }
}
