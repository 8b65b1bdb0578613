/** The graphics device as the model sees it: nothing but the list of calls the
    renderer issued, in order.  Buffer names are handed out by a counter, so a
    name returned by glGenBuffers is non-zero and was never returned before. */
module Gl {

  /** A GLuint buffer name; 0 names "no buffer". */
  type Handle = nat

  datatype Call =
    | GenBuffer(name: Handle)
    | BindBuffer(target: int, name: Handle)
    | BufferData(target: int, bytes: seq<bv8>)
    | EnableVertexAttrib(slot: nat)
    | VertexAttribPointer(slot: nat, size: int, componentType: int, normalized: bool, stride: int, offset: nat)
    | DrawElements(mode: int, count: nat, componentType: int, offset: nat)

  /** How a run of the renderer's code ends: normally; by a failed `assert` or an
      uncaught std::out_of_range (the program stops); or by indexing a vector out
      of range, whose behaviour C++ leaves undefined. */
  datatype Outcome = Completed | Aborted | Undefined

  /** The number of draw calls in a call list. */
  function DrawCount(calls: seq<Call>): (n: nat)
    ensures n <= |calls|
  {
    if calls == [] then 0
    else (if calls[0].DrawElements? then 1 else 0) + DrawCount(calls[1..])
  }

  lemma {:induction false} DrawCountAppend(a: seq<Call>, b: seq<Call>)
    ensures DrawCount(a + b) == DrawCount(a) + DrawCount(b)
  {
    if a == [] {
      assert a + b == b;
    } else {
      assert (a + b)[1..] == a[1..] + b;
      DrawCountAppend(a[1..], b);
    }
  }

  // Sequence facts the proofs about call logs lean on.

  lemma AppendAssoc<T>(a: seq<T>, b: seq<T>, c: seq<T>)
    ensures (a + b) + c == a + (b + c)
  {
  }

  lemma SliceOfAppend<T>(a: seq<T>, b: seq<T>, x: nat, y: nat)
    requires x <= y <= |b|
    ensures (a + b)[|a| + x .. |a| + y] == b[x..y]
    ensures (a + b)[..|a|] == a
  {
  }
}
