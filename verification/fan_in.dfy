/** The fan-in completion counter used by `SceneGroup.recallScenes` and
    `AggregateLight.applyLightState`: a counter that starts at N, a result array
    with one slot per request, and one response event per index. The completion
    callback fires when a response brings the counter to zero. Responses arrive
    here as a sequence of events; threads and the atomic counter are not modelled. */
module FanIn {
  import opened Wrappers
  import opened Seqs

  /** The response to request `index`, carrying the reply `reply`. */
  datatype Response<C> = Response(index: int, reply: C)

  /** A filled result slot: the request's item and its reply. */
  datatype Slot<T, C> = Slot(item: T, reply: C)

  /** The latch: items in request order, the counter, the result array and the list
      of result lists delivered to the completion callback so far. */
  datatype Latch<T, C> = Latch(
    items: seq<T>,
    counter: int,
    slots: seq<Option<Slot<T, C>>>,
    fired: seq<seq<Option<Slot<T, C>>>>)

  ghost predicate Valid<T, C>(l: Latch<T, C>)
  {
    |l.slots| == |l.items|
  }

  /** Issuing the requests: counter N, all N slots empty, nothing delivered. */
  function Start<T, C>(items: seq<T>): (l: Latch<T, C>)
    ensures Valid(l) && |l.slots| == |items|
    ensures l.counter == |items| && l.fired == []
    ensures forall i :: 0 <= i < |items| ==> l.slots[i] == None
  {
    Latch(items, |items|, seq(|items|, _ => None), [])
  }

  /** One response: store it in its own slot, decrement, and fire on reaching zero. */
  function Respond<T, C>(l: Latch<T, C>, r: Response<C>): (l': Latch<T, C>)
    requires Valid(l)
    requires 0 <= r.index < |l.items|
    ensures Valid(l') && l'.items == l.items
    ensures l'.counter == l.counter - 1
    ensures l'.slots[r.index] == Some(Slot(l.items[r.index], r.reply))
    ensures forall i :: 0 <= i < |l.slots| && i != r.index ==> l'.slots[i] == l.slots[i]
    ensures l'.fired == if l.counter == 1 then l.fired + [l'.slots] else l.fired
  {
    var slots := l.slots[r.index := Some(Slot(l.items[r.index], r.reply))];
    var current := l.counter - 1;
    Latch(l.items, current, slots, if current == 0 then l.fired + [slots] else l.fired)
  }

  /** Every response names a request that was issued. */
  ghost predicate InRange<C>(rs: seq<Response<C>>, n: int)
  {
    forall k :: 0 <= k < |rs| ==> 0 <= rs[k].index < n
  }

  /** No request is answered twice. */
  ghost predicate DistinctIndices<C>(rs: seq<Response<C>>)
  {
    forall j, k :: 0 <= j < k < |rs| ==> rs[j].index != rs[k].index
  }

  /** Delivering the responses in order. */
  function Run<T, C>(l: Latch<T, C>, rs: seq<Response<C>>): (l': Latch<T, C>)
    requires Valid(l) && InRange(rs, |l.items|)
    ensures Valid(l') && l'.items == l.items
  {
    if |rs| == 0 then l
    else Respond(Run(l, rs[..|rs| - 1]), rs[|rs| - 1])
  }

  /** The indices answered, as a set. */
  ghost function Answered<C>(rs: seq<Response<C>>): set<int>
  {
    set k | 0 <= k < |rs| :: rs[k].index
  }

  /** What holds after the distinct in-range responses `rs`: the counter has dropped
      by their number, each answered slot pairs its own item with its own reply,
      unanswered slots are empty, and nothing fired unless the counter reached zero
      on the last response. */
  ghost predicate Inv<T, C>(items: seq<T>, l: Latch<T, C>, rs: seq<Response<C>>)
    requires Valid(l) && l.items == items && InRange(rs, |items|)
  {
    && l.counter == |items| - |rs|
    && (forall k :: 0 <= k < |rs| ==> l.slots[rs[k].index] == Some(Slot(items[rs[k].index], rs[k].reply)))
    && (forall i :: 0 <= i < |items| && i !in Answered(rs) ==> l.slots[i] == None)
    && (|rs| < |items| || |rs| == 0 ==> l.fired == [])
    && (|rs| == |items| > 0 ==> l.fired == [l.slots])
  }

  lemma {:induction false} RunInvariant<T, C>(items: seq<T>, rs: seq<Response<C>>)
    requires InRange(rs, |items|) && DistinctIndices(rs)
    ensures Inv(items, Run(Start(items), rs), rs)
  {
    if |rs| > 0 {
      var front := rs[..|rs| - 1];
      assert InRange(front, |items|) && DistinctIndices(front);
      RunInvariant(items, front);
      DistinctBound(items, rs);
      assert rs == front + [rs[|rs| - 1]];
      assert 0 <= rs[|rs| - 1].index < |items|;
      StepInvariant(items, Run(Start(items), front), front, rs[|rs| - 1]);
    } else {
      assert Answered(rs) == {};
    }
  }

  /** One more response with a fresh index keeps the invariant. */
  lemma {:induction false} StepInvariant<T, C>(items: seq<T>, l0: Latch<T, C>, front: seq<Response<C>>, last: Response<C>)
    requires Valid(l0) && l0.items == items && InRange(front, |items|) && 0 <= last.index < |items|
    requires DistinctIndices(front + [last]) && |front| + 1 <= |items|
    requires Inv(items, l0, front)
    ensures Inv(items, Respond(l0, last), front + [last])
  {
    var rs := front + [last];
    var l := Respond(l0, last);
    assert forall k :: 0 <= k < |front| ==> rs[k] == front[k];
    assert rs[|front|] == last;
    assert Answered(rs) == Answered(front) + {last.index};
    forall k | 0 <= k < |front| ensures front[k].index != last.index {
      assert rs[k] == front[k] && rs[|front|] == last;
    }
    forall k | 0 <= k < |rs| ensures l.slots[rs[k].index] == Some(Slot(items[rs[k].index], rs[k].reply)) {
      if k < |front| {
        assert rs[k] == front[k];
      }
    }
  }

  /** Distinct in-range answers are at most as many as the requests. */
  lemma {:induction false} DistinctBound<T, C>(items: seq<T>, rs: seq<Response<C>>)
    requires InRange(rs, |items|) && DistinctIndices(rs)
    ensures |rs| <= |items|
    ensures |rs| == |items| ==> forall i :: 0 <= i < |items| ==> i in Answered(rs)
  {
    var A := Answered(rs);
    var R := RangeSet(|items|);
    AnsweredSize(rs);
    assert A <= R;
    SubsetFull(A, R);
  }

  /** A subset is at most as large as its superset, and as large only when equal. */
  lemma {:induction false} SubsetFull(A: set<int>, R: set<int>)
    requires A <= R
    ensures |A| <= |R|
    ensures |A| == |R| ==> A == R
  {
    var D := R - A;
    assert R == A + D;
    assert A !! D;
    if |A| == |R| {
      assert D == {};
    }
  }

  lemma {:induction false} AnsweredSize<C>(rs: seq<Response<C>>)
    requires DistinctIndices(rs)
    ensures |Answered(rs)| == |rs|
  {
    if |rs| > 0 {
      var front := rs[..|rs| - 1];
      assert DistinctIndices(front);
      AnsweredSize(front);
      assert Answered(rs) == Answered(front) + {rs[|rs| - 1].index};
      assert rs[|rs| - 1].index !in Answered(front);
    } else {
      assert Answered(rs) == {};
    }
  }

  /** The set {0, ..., n-1}, with its size. */
  function RangeSet(n: nat): (r: set<int>)
    ensures forall i :: i in r <==> 0 <= i < n
    ensures |r| == n
  {
    if n == 0 then {} else RangeSet(n - 1) + {n - 1}
  }

  /** If every request is answered exactly once, in any order, the completion fires
      exactly once, on the N-th response, with every slot holding its own reply;
      before the last response nothing fires. */
  lemma {:induction false} CompletesExactlyOnce<T, C>(items: seq<T>, rs: seq<Response<C>>)
    requires InRange(rs, |items|) && DistinctIndices(rs) && |rs| == |items| > 0
    ensures |Run(Start(items), rs).fired| == 1
    ensures var results := Run(Start(items), rs).fired[0];
      && |results| == |items|
      && (forall i :: 0 <= i < |items| ==> results[i].Some?)
      && (forall k :: 0 <= k < |rs| ==> results[rs[k].index] == Some(Slot(items[rs[k].index], rs[k].reply)))
    ensures forall m :: 0 <= m < |rs| ==> Run(Start(items), rs[..m]).fired == []
  {
    RunInvariant(items, rs);
    DistinctBound(items, rs);
    var l := Run(Start<T, C>(items), rs);
    forall i | 0 <= i < |items| ensures l.slots[i].Some? {
      assert i in Answered(rs);
    }
    forall m | 0 <= m < |rs| ensures Run(Start(items), rs[..m]).fired == [] {
      var p := rs[..m];
      assert InRange(p, |items|) && DistinctIndices(p);
      RunInvariant(items, p);
    }
  }

  /** With no requests the counter starts at zero, no response can arrive, and the
      completion never fires. */
  lemma {:induction false} NoItemsNeverFires<T, C>(items: seq<T>, rs: seq<Response<C>>)
    requires |items| == 0 && InRange(rs, |items|)
    ensures rs == [] && Run(Start(items), rs).fired == [] && Start<T, C>(items).counter == 0
  {
    ResponsesNeedRequests(rs, 0);
  }

  /** A response can only exist when some request was issued. */
  lemma {:induction false} ResponsesNeedRequests<C>(rs: seq<Response<C>>, n: int)
    requires InRange(rs, n)
    ensures |rs| > 0 ==> n > 0
  {
    if |rs| > 0 {
      assert 0 <= rs[0].index < n;
    }
  }
}
