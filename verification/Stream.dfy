/**
 * A resumable decoder as a fold: one step per byte, collecting the callbacks it makes.
 * Everything the streaming claims need about chunks follows from `RunConcat`.
 */
module Stream {
  import opened Bytes

  /** After some bytes: a state to go on from, or a rejection; and the callbacks made so far. */
  datatype Outcome<S, E> =
    | Next(state: S, calls: seq<E>)
    | Reject(state: S, calls: seq<E>)
  {
    /** This outcome when the callbacks `earlier` were made before. */
    function After(earlier: seq<E>): Outcome<S, E> {
      this.(calls := earlier + calls)
    }
  }

  function Run<S, E>(step: (S, Byte) -> Outcome<S, E>, s: S, bs: seq<Byte>): Outcome<S, E> {
    if bs == [] then Next(s, [])
    else
      match step(s, bs[0])
      case Reject(r, e) => Reject(r, e)
      case Next(t, e) => Run(step, t, bs[1..]).After(e)
  }

  /** What is left to do with `bs` after the outcome `o`. */
  function Resume<S, E>(step: (S, Byte) -> Outcome<S, E>, o: Outcome<S, E>, bs: seq<Byte>): Outcome<S, E> {
    match o
    case Reject(_, _) => o
    case Next(t, e) => Run(step, t, bs).After(e)
  }

  lemma Assoc<T>(a: seq<T>, b: seq<T>, c: seq<T>)
    ensures (a + b) + c == a + (b + c)
  {
  }

  lemma AfterAfter<S, E>(o: Outcome<S, E>, a: seq<E>, b: seq<E>)
    ensures o.After(b).After(a) == o.After(a + b)
  {
    assert a + (b + o.calls) == (a + b) + o.calls;
  }

  lemma AfterNothing<S, E>(o: Outcome<S, E>)
    ensures o.After([]) == o
  {
    assert [] + o.calls == o.calls;
  }

  /** Cutting the input anywhere changes nothing. */
  lemma {:induction false} RunConcat<S, E>(step: (S, Byte) -> Outcome<S, E>, s: S, a: seq<Byte>, b: seq<Byte>)
    ensures Run(step, s, a + b) == Resume(step, Run(step, s, a), b)
  {
    if a == [] {
      assert a + b == b;
      assert [] + Run(step, s, b).calls == Run(step, s, b).calls;
    } else {
      assert (a + b)[0] == a[0] && (a + b)[1..] == a[1..] + b;
      match step(s, a[0])
      case Reject(_, _) =>
      case Next(t, e) =>
        RunConcat(step, t, a[1..], b);
        var o := Run(step, t, a[1..]);
        if o.Next? {
          var r := Run(step, o.state, b).calls;
          assert e + (o.calls + r) == (e + o.calls) + r;
        }
    }
  }

  /** A prefix that calls nothing only moves the state. */
  lemma RunOn<S, E>(step: (S, Byte) -> Outcome<S, E>, s: S, a: seq<Byte>, t: S, b: seq<Byte>)
    requires Run(step, s, a) == Next(t, [])
    ensures Run(step, s, a + b) == Run(step, t, b)
  {
    RunConcat(step, s, a, b);
    AfterNothing(Run(step, t, b));
  }

  lemma RunOne<S, E>(step: (S, Byte) -> Outcome<S, E>, s: S, b: Byte)
    ensures Run(step, s, [b]) == step(s, b)
  {
    var o := step(s, b);
    assert [b][1..] == [];
    assert o.calls + [] == o.calls;
  }

  /** Chunks fed one after the other, stopping at the first rejection. */
  function RunChunks<S, E>(step: (S, Byte) -> Outcome<S, E>, s: S, chunks: seq<seq<Byte>>): Outcome<S, E> {
    if chunks == [] then Next(s, [])
    else
      match Run(step, s, chunks[0])
      case Reject(r, e) => Reject(r, e)
      case Next(t, e) => RunChunks(step, t, chunks[1..]).After(e)
  }

  function Flatten(chunks: seq<seq<Byte>>): seq<Byte> {
    if chunks == [] then [] else chunks[0] + Flatten(chunks[1..])
  }

  /** Chunk invariance: the outcome depends on the bytes only, not on where they are cut. */
  lemma {:induction false} ChunkInvariance<S, E>(step: (S, Byte) -> Outcome<S, E>, s: S, chunks: seq<seq<Byte>>)
    ensures RunChunks(step, s, chunks) == Run(step, s, Flatten(chunks))
  {
    if chunks != [] {
      RunConcat(step, s, chunks[0], Flatten(chunks[1..]));
      match Run(step, s, chunks[0])
      case Reject(_, _) =>
      case Next(t, _) => ChunkInvariance(step, t, chunks[1..]);
    }
  }
}
