/** The simulation driver: a fixed list of stations, a tick that updates
    every station once in list order, and "send packet", which starts a
    transmission on one idle station picked by index. */
module CsmaSimulation {
  import opened CsmaNode

  /** Number of stations. */
  const NumNodes: nat := 5

  /** Positions of the idle stations, in list order. */
  function IdleIndices(vs: seq<NodeView>): (r: seq<nat>)
    ensures forall j :: 0 <= j < |r| ==> r[j] < |vs| && vs[r[j]].state == Idle
    decreases |vs|
  {
    if vs == [] then []
    else
      var n := |vs| - 1;
      IdleIndices(vs[..n]) + (if vs[n].state == Idle then [n] else [])
  }

  /** Every idle station is listed, and the list is in increasing order. */
  lemma {:induction false} IdleIndicesComplete(vs: seq<NodeView>)
    ensures forall i :: 0 <= i < |vs| && vs[i].state == Idle ==> i in IdleIndices(vs)
    ensures forall j, j' :: 0 <= j < j' < |IdleIndices(vs)| ==> IdleIndices(vs)[j] < IdleIndices(vs)[j']
    decreases |vs|
  {
    if vs != [] {
      var n := |vs| - 1;
      IdleIndicesComplete(vs[..n]);
      assert forall i :: 0 <= i < n ==> vs[..n][i] == vs[i];
    }
  }

  /** Entry `k` of `IdleIndices(vs)` is the k-th idle station in list
      order: it is idle and exactly `k` idle stations come before it. */
  lemma {:induction false} IdleIndicesRank(vs: seq<NodeView>, k: nat)
    requires k < |IdleIndices(vs)|
    ensures var j := IdleIndices(vs)[k];
      vs[j].state == Idle && |IdleIndices(vs[..j])| == k
    decreases |vs|
  {
    var n := |vs| - 1;
    var front := IdleIndices(vs[..n]);
    if k < |front| {
      var j := front[k];
      IdleIndicesRank(vs[..n], k);
      assert vs[..n][..j] == vs[..j];
    } else {
      assert vs[..n] == vs[..IdleIndices(vs)[k]];
    }
  }

  lemma IdleIndicesSnoc(vs: seq<NodeView>, i: nat)
    requires i < |vs|
    ensures IdleIndices(vs[..i + 1]) ==
      IdleIndices(vs[..i]) + (if vs[i].state == Idle then [i] else [])
  {
    assert vs[..i + 1][..i] == vs[..i];
  }

  /** The selection is empty exactly when no station is idle. */
  lemma NoIdleIndices(vs: seq<NodeView>)
    ensures IdleIndices(vs) == [] <==> forall i :: 0 <= i < |vs| ==> vs[i].state != Idle
  {
  }

  /** `k` is a possible outcome of the random index draw over the idle list. */
  predicate ValidPick(vs: seq<NodeView>, k: int) {
    IdleIndices(vs) != [] ==> 0 <= k < |IdleIndices(vs)|
  }

  /** The stations after "send packet" with random index `k`. */
  function AfterSend(vs: seq<NodeView>, k: int): seq<NodeView>
    requires ValidPick(vs, k)
  {
    var idle := IdleIndices(vs);
    if idle == [] then vs
    else vs[idle[k] := vs[idle[k]].(state := Transmitting)]
  }

  /** "Send packet" moves exactly the selected station from idle to
      transmitting and leaves every other station as it was; with no idle
      station it changes nothing. */
  lemma SendFrame(vs: seq<NodeView>, k: int)
    requires ValidPick(vs, k)
    ensures |AfterSend(vs, k)| == |vs|
    ensures (forall i :: 0 <= i < |vs| ==> vs[i].state != Idle) ==> AfterSend(vs, k) == vs
    ensures IdleIndices(vs) != [] ==>
      var j := IdleIndices(vs)[k];
      && vs[j].state == Idle
      && AfterSend(vs, k)[j] == vs[j].(state := Transmitting)
      && forall i :: 0 <= i < |vs| && i != j ==> AfterSend(vs, k)[i] == vs[i]
  {
  }

  /** Every station has its list position as its id. */
  predicate IdsAreIndices(vs: seq<NodeView>) {
    forall i :: 0 <= i < |vs| ==> vs[i].id == i
  }

  predicate AllInv(vs: seq<NodeView>) {
    forall i :: 0 <= i < |vs| ==> Inv(vs[i])
  }

  predicate AllInRange(ds: seq<Draws>) {
    forall i :: 0 <= i < |ds| ==> ds[i].InRange()
  }

  /** "Send packet" keeps the ids and the counter invariant of every station. */
  lemma SendPreserves(vs: seq<NodeView>, k: int)
    requires ValidPick(vs, k)
    ensures IdsAreIndices(vs) ==> IdsAreIndices(AfterSend(vs, k))
    ensures AllInv(vs) ==> AllInv(AfterSend(vs, k))
  {
  }

  /** The stations after one tick: each station updated in list order with
      its own draws. */
  function AfterTick(vs: seq<NodeView>, ds: seq<Draws>): (r: seq<NodeView>)
    requires |ds| == |vs|
    ensures |r| == |vs|
    decreases |vs|
  {
    if vs == [] then []
    else
      var n := |vs| - 1;
      AfterTick(vs[..n], ds[..n]) + [Step(vs[n], ds[n])]
  }

  /** A tick is the pointwise update of every station. */
  lemma {:induction false} AfterTickPointwise(vs: seq<NodeView>, ds: seq<Draws>)
    requires |ds| == |vs|
    ensures |AfterTick(vs, ds)| == |vs|
    ensures forall i :: 0 <= i < |vs| ==> AfterTick(vs, ds)[i] == Step(vs[i], ds[i])
    decreases |vs|
  {
    if vs != [] {
      var n := |vs| - 1;
      AfterTickPointwise(vs[..n], ds[..n]);
    }
  }

  /** No station's result depends on another station or its draws. */
  lemma TickIndependent(vs: seq<NodeView>, ds: seq<Draws>, vs': seq<NodeView>, ds': seq<Draws>, i: int)
    requires |ds| == |vs| && |ds'| == |vs'|
    requires 0 <= i < |vs| && i < |vs'|
    requires vs[i] == vs'[i] && ds[i] == ds'[i]
    ensures AfterTick(vs, ds)[i] == AfterTick(vs', ds')[i]
  {
    AfterTickPointwise(vs, ds);
    AfterTickPointwise(vs', ds');
  }

  /** A tick keeps the number of stations, their ids and the counter invariant. */
  lemma TickPreserves(vs: seq<NodeView>, ds: seq<Draws>)
    requires |ds| == |vs|
    requires AllInRange(ds)
    ensures |AfterTick(vs, ds)| == |vs|
    ensures IdsAreIndices(vs) ==> IdsAreIndices(AfterTick(vs, ds))
    ensures AllInv(vs) ==> AllInv(AfterTick(vs, ds))
  {
  }

  /** The events one tick logs, in list order. */
  function TickLog(vs: seq<NodeView>, ds: seq<Draws>): (log: seq<Event>)
    requires |ds| == |vs|
    ensures |log| <= |vs|
    ensures forall e :: e in log ==> exists i :: 0 <= i < |vs| && Emitted(vs[i], ds[i]) == Some(e)
    decreases |vs|
  {
    if vs == [] then []
    else
      var n := |vs| - 1;
      TickLog(vs[..n], ds[..n]) + (match Emitted(vs[n], ds[n]) case Some(e) => [e] case None => [])
  }

  /** The log of the first `i + 1` stations is the log of the first `i`
      followed by station `i`'s event, if it has one: the log is the
      list-order concatenation of every station's event. */
  lemma TickLogSnoc(vs: seq<NodeView>, ds: seq<Draws>, i: nat)
    requires |ds| == |vs| && i < |vs|
    ensures TickLog(vs[..i + 1], ds[..i + 1]) ==
      TickLog(vs[..i], ds[..i]) + (match Emitted(vs[i], ds[i]) case Some(e) => [e] case None => [])
  {
    assert vs[..i + 1][..i] == vs[..i] && ds[..i + 1][..i] == ds[..i];
  }

  /** The log of the first `m` stations is a prefix of the whole log. */
  lemma {:induction false} TickLogPrefix(vs: seq<NodeView>, ds: seq<Draws>, m: nat)
    requires |ds| == |vs| && m <= |vs|
    ensures TickLog(vs[..m], ds[..m]) <= TickLog(vs, ds)
    decreases |vs|
  {
    if m < |vs| {
      var n := |vs| - 1;
      assert vs[..n][..m] == vs[..m] && ds[..n][..m] == ds[..m];
      TickLogPrefix(vs[..n], ds[..n], m);
      TickLogSnoc(vs, ds, n);
      assert vs[..n + 1] == vs && ds[..n + 1] == ds;
    } else {
      assert vs[..m] == vs && ds[..m] == ds;
    }
  }

  /** Every station's event is logged, right after the events of the
      stations before it. */
  lemma TickLogAt(vs: seq<NodeView>, ds: seq<Draws>, i: nat)
    requires |ds| == |vs| && i < |vs|
    requires Emitted(vs[i], ds[i]).Some?
    ensures var p := |TickLog(vs[..i], ds[..i])|;
      p < |TickLog(vs, ds)| && TickLog(vs, ds)[p] == Emitted(vs[i], ds[i]).value
    ensures Emitted(vs[i], ds[i]).value in TickLog(vs, ds)
  {
    TickLogSnoc(vs, ds, i);
    TickLogPrefix(vs, ds, i + 1);
  }

  /** The stations of a fresh simulation. */
  function InitialNodes(n: nat): (vs: seq<NodeView>)
    ensures |vs| == n && IdsAreIndices(vs) && AllInv(vs)
    ensures forall i :: 0 <= i < n ==> vs[i].state == Idle
  {
    seq(n, i => NewNode(i))
  }

  /** `sel` holds the elements of `xs` at the idle positions among the
      first `i` of `vs`, in order; `idx` holds those positions. */
  ghost predicate Collected<T>(vs: seq<NodeView>, xs: seq<T>, i: nat, idx: seq<nat>, sel: seq<T>) {
    && i <= |vs| == |xs|
    && idx == IdleIndices(vs[..i])
    && |sel| == |idx|
    && forall j :: 0 <= j < |idx| ==> idx[j] < i && sel[j] == xs[idx[j]]
  }

  lemma CollectStep<T>(vs: seq<NodeView>, xs: seq<T>, i: nat, idx: seq<nat>, sel: seq<T>)
    requires i < |vs| && Collected(vs, xs, i, idx, sel)
    ensures vs[i].state == Idle ==> Collected(vs, xs, i + 1, idx + [i], sel + [xs[i]])
    ensures vs[i].state != Idle ==> Collected(vs, xs, i + 1, idx, sel)
  {
    IdleIndicesSnoc(vs, i);
  }

  lemma CollectDone<T>(vs: seq<NodeView>, xs: seq<T>, idx: seq<nat>, sel: seq<T>)
    requires Collected(vs, xs, |vs|, idx, sel)
    ensures idx == IdleIndices(vs) && |sel| == |idx|
    ensures forall j :: 0 <= j < |idx| ==> sel[j] == xs[idx[j]] && vs[idx[j]].state == Idle
  {
    assert vs[..|vs|] == vs;
  }

  /** The values of a list of stations, in order. */
  ghost function ViewsOf(ns: seq<Node>): (vs: seq<NodeView>)
    reads set n | n in ns
    ensures |vs| == |ns|
    ensures forall i :: 0 <= i < |ns| ==> vs[i] == ns[i].View()
    decreases |ns|
  {
    if ns == [] then [] else ViewsOf(ns[..|ns| - 1]) + [ns[|ns| - 1].View()]
  }

  class Simulation {
    var nodes: seq<Node>

    /** The list holds `NumNodes` stations whose ids are their positions
        (so no station occurs twice). */
    ghost predicate Valid()
      reads this
    {
      |nodes| == NumNodes && forall i :: 0 <= i < |nodes| ==> nodes[i].id == i
    }

    ghost function Views(): (vs: seq<NodeView>)
      reads this, set n | n in nodes
      ensures |vs| == |nodes|
      ensures forall i :: 0 <= i < |nodes| ==> vs[i] == nodes[i].View()
    {
      ViewsOf(nodes)
    }

    constructor ()
      ensures Valid() && Views() == InitialNodes(NumNodes)
    {
      nodes := [];
      new;
      InitializeSimulation();
    }

    method InitializeSimulation()
      modifies this
      ensures Valid() && Views() == InitialNodes(NumNodes)
      ensures forall i :: 0 <= i < |nodes| ==> fresh(nodes[i])
    {
      var ns: seq<Node> := [];
      for i := 0 to NumNodes
        invariant |ns| == i
        invariant forall j :: 0 <= j < i ==> fresh(ns[j]) && ns[j].View() == NewNode(j)
      {
        var n := new Node(i);
        ns := ns + [n];
      }
      nodes := ns;
    }

    /** `k` is the random index into the list of idle stations. */
    method GetRandomIdleNode(k: int) returns (r: Node?)
      requires ValidPick(Views(), k)
      ensures r == null <==> IdleIndices(Views()) == []
      ensures r != null ==> r == nodes[IdleIndices(Views())[k]] && r.state == Idle
    {
      ghost var vs := Views();
      ghost var idx: seq<nat> := [];
      var idleNodes: seq<Node> := [];
      for i := 0 to |nodes|
        invariant Collected(vs, nodes, i, idx, idleNodes)
      {
        CollectStep(vs, nodes, i, idx, idleNodes);
        if nodes[i].state == Idle {
          idleNodes := idleNodes + [nodes[i]];
          idx := idx + [i];
        }
      }
      CollectDone(vs, nodes, idx, idleNodes);
      if idleNodes != [] {
        r := idleNodes[k];
      } else {
        r := null;
      }
    }

    /** `k` is the random index into the list of idle stations. */
    method SendPacket(k: int) returns (e: Option<Event>)
      requires Valid() && ValidPick(Views(), k)
      modifies set n | n in nodes
      ensures Valid()
      ensures Views() == AfterSend(old(Views()), k)
      ensures e == if IdleIndices(old(Views())) == [] then None
                   else Some(TransmissionStarted(IdleIndices(old(Views()))[k]))
    {
      ghost var vs := Views();
      var transmittingNode := GetRandomIdleNode(k);
      if transmittingNode != null {
        ghost var j := IdleIndices(vs)[k];
        SendFrame(vs, k);
        assert forall i :: 0 <= i < |nodes| && i != j ==> nodes[i] != transmittingNode;
        var ev := transmittingNode.StartTransmission();
        e := Some(ev);
        assert forall i :: 0 <= i < |nodes| ==> Views()[i] == AfterSend(vs, k)[i];
      } else {
        e := None;
      }
    }

    /** `ds[i]` are the random draws of station `i` for this tick. */
    method UpdateSimulation(ds: seq<Draws>) returns (log: seq<Event>)
      requires Valid() && |ds| == |nodes|
      modifies set n | n in nodes
      ensures Valid()
      ensures Views() == AfterTick(old(Views()), ds)
      ensures log == TickLog(old(Views()), ds)
    {
      ghost var vs := Views();
      log := [];
      for i := 0 to |nodes|
        invariant Valid()
        invariant forall j :: 0 <= j < i ==> nodes[j].View() == Step(vs[j], ds[j])
        invariant forall j :: i <= j < |nodes| ==> nodes[j].View() == vs[j]
        invariant log == TickLog(vs[..i], ds[..i])
      {
        var node := nodes[i];
        assert forall j :: 0 <= j < |nodes| && j != i ==> nodes[j] != node;
        var e := node.Update(ds[i]);
        if e.Some? {
          log := log + [e.value];
        }
        TickLogSnoc(vs, ds, i);
      }
      assert vs[..|nodes|] == vs && ds[..|nodes|] == ds;
      AfterTickPointwise(vs, ds);
      assert forall j :: 0 <= j < |nodes| ==> Views()[j] == AfterTick(vs, ds)[j];
    }
  }
}
