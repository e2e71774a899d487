/** A buffer that is handed a whole vector at once and gives out its
    elements one per request.  It is armed while it holds a vector (even an
    empty one) and can be handed a new vector only once a request has found
    the old one used up, which disarms it. */
module OptFifos {
  import opened Lib

  /** The elements still queued. */
  function Queued<T>(d: Option<seq<T>>): seq<T>
  {
    if d.Some? then d.value else []
  }

  /** `get`: the oldest queued element; a request that finds the vector used
      up reports None, drops the vector and disarms the buffer. */
  function FifoGet<T>(d: Option<seq<T>>): (r: (Option<T>, Option<seq<T>>))
    ensures r.0.Some? <==> Queued(d) != []
    ensures r.0.None? ==> r.1.None?
    ensures r.0.Some? ==> r.1.Some? && |Queued(r.1)| + 1 == |Queued(d)|
    ensures r.1.Some? ==> d.Some?
  {
    match d
    case None => (None, None)
    case Some(v) => if v == [] then (None, None) else (Some(v[0]), Some(v[1..]))
  }

  /** Requests the buffer still answers before it is disarmed. */
  function BufferSize<T>(d: Option<seq<T>>): nat
  {
    if d.None? then 0 else |d.value| + 1
  }

  /** The element given out, if any. */
  function Given<T>(r: Option<T>): seq<T>
  {
    if r.Some? then [r.value] else []
  }

  /** A request gives out at most the oldest element and adds nothing: what
      it gives followed by what is still queued is what was queued. */
  lemma GetConserves<T>(d: Option<seq<T>>)
    ensures Given(FifoGet(d).0) + Queued(FifoGet(d).1) == Queued(d)
  {
    if d.Some? && d.value != [] {
      assert [d.value[0]] + d.value[1..] == d.value;
    }
  }

  /** The replies of `n` requests in a row and the buffer after them. */
  function FifoGets<T>(d: Option<seq<T>>, n: nat): (r: (seq<Option<T>>, Option<seq<T>>))
    ensures |r.0| == n
    decreases n
  {
    if n == 0 then ([], d)
    else
      var (x, d2) := FifoGet(d);
      var (xs, d3) := FifoGets(d2, n - 1);
      ([x] + xs, d3)
  }

  /** Each element wrapped as a reply. */
  function Somes<T>(v: seq<T>): (r: seq<Option<T>>)
    ensures |r| == |v|
  {
    if v == [] then [] else [Some(v[0])] + Somes(v[1..])
  }

  /** `n` empty replies. */
  function Nones<T>(n: nat): (r: seq<Option<T>>)
    ensures |r| == n
  {
    if n == 0 then [] else [None] + Nones(n - 1)
  }

  /** A disarmed buffer answers every request with None and stays disarmed. */
  lemma {:induction false} GetsDisarmed<T>(n: nat)
    ensures FifoGets<T>(None, n) == (Nones(n), None)
  {
    if n > 0 {
      GetsDisarmed<T>(n - 1);
    }
  }

  /** After a vector is set, the requests give out its elements in order,
      then one None disarms the buffer, and every later request is None too. */
  lemma {:induction false} GetsAfterSet<T>(v: seq<T>, n: nat)
    ensures FifoGets(Some(v), |v| + 1 + n) == (Somes(v) + Nones(n + 1), None)
  {
    if v == [] {
      GetsDisarmed<T>(n);
      assert FifoGets(Some(v), 1 + n) == ([None] + Nones(n), None);
      assert Somes(v) + Nones(n + 1) == [None] + Nones(n);
    } else {
      GetsAfterSet(v[1..], n);
      assert FifoGets(Some(v), |v| + 1 + n)
          == ([Some(v[0])] + (Somes(v[1..]) + Nones(n + 1)), None);
      AppendAssoc([Some(v[0])], Somes(v[1..]), Nones(n + 1));
    }
  }

  class OptFifo<T> {
    var data: Option<seq<T>>

    /** `new`: disarmed. */
    constructor()
      ensures data == None
    {
      data := None;
    }

    /** `set`: arms the buffer with a vector; the buffer must be disarmed. */
    method Set(v: seq<T>)
      requires data.None?
      modifies this
      ensures data == Some(v)
    {
      data := Some(v);
    }

    /** `get`: removes and returns the oldest element; when the vector is used
      up, drops it and returns None. */
    method Get() returns (r: Option<T>)
      modifies this
      ensures (r, data) == FifoGet(old(data))
    {
      if data.Some? {
        if data.value == [] {
          data := None;
        } else {
          var element := data.value[0];
          data := Some(data.value[1..]);
          return Some(element);
        }
      }
      return None;
    }
  }

  /** The lifecycle the source's own test walks through. */
  lemma LifecycleExample()
    ensures FifoGets<int>(None, 1) == ([None], None)
    ensures FifoGets(Some([2, 3]), 4) == ([Some(2), Some(3), None, None], None)
  {
    GetsDisarmed<int>(1);
    assert Nones<int>(1) == [None];
    var v: seq<int> := [2, 3];
    GetsAfterSet(v, 1);
    assert |v| + 1 + 1 == 4;
    assert Somes(v) == [Some(2), Some(3)] by {
      assert Somes(v) == [Some(2)] + Somes(v[1..]);
      assert Somes(v[1..]) == [Some(3)] + Somes(v[2..]);
    }
    assert Nones<int>(2) == [None, None];
    assert FifoGets(Some(v), 4) == (Somes(v) + Nones(2), None);
    assert Somes(v) + Nones(2) == [Some(2), Some(3), None, None];
    assert v == [2, 3];
  }
}
