/** The priority queue of the Huffman construction (experimental/fast_lossless/fast_lossless.cc:148-166): smallest
frequency first, then smallest node, as a sorted sequence.
 */
module PriorityQueue {

  datatype QElem = QElem(freq: nat, node: nat)

  predicate Leq(a: QElem, b: QElem) {
    a.freq < b.freq || (a.freq == b.freq && a.node <= b.node)
  }

  ghost predicate IsQueue(q: seq<QElem>) {
    (forall i, j | 0 <= i < j < |q| :: Leq(q[i], q[j])) && forall i, j | 0 <= i < j < |q| :: q[i].node != q[j].node
  }

  function Position(q: seq<QElem>, e: QElem): (p: nat)
    ensures p <= |q| && (forall i | 0 <= i < p :: Leq(q[i], e)) && (p < |q| ==> !Leq(q[p], e))
  {
    if q == [] || !Leq(q[0], e) then 0
    else
      var p := 1 + Position(q[1..], e);
      assert forall i | 1 <= i < p :: q[i] == q[1..][i - 1];
      p
  }

  function Emplace(q: seq<QElem>, e: QElem): seq<QElem> {
    var p := Position(q, e);
    q[..p] + [e] + q[p..]
  }

  lemma EmplaceKeepsQueue(q: seq<QElem>, e: QElem)
    requires IsQueue(q) && forall i | 0 <= i < |q| :: q[i].node != e.node
    ensures IsQueue(Emplace(q, e)) && |Emplace(q, e)| == |q| + 1
    ensures forall x :: x in Emplace(q, e) <==> x in q || x == e
  {
    var p := Position(q, e);
    var r := Emplace(q, e);
    EmplaceAt(q, e);
    hide Emplace, Position;
    forall x ensures x in r <==> x in q || x == e {
      if x in q {
        var i :| 0 <= i < |q| && q[i] == x;
        assert r[if i < p then i else i + 1] == x;
      }
      assert r[p] == e;
    }
    forall i, j | 0 <= i < j < |r| ensures Leq(r[i], r[j]) && r[i].node != r[j].node {
      if i == p {
        assert Leq(e, q[p]);
        assert j - 1 == p || Leq(q[p], q[j - 1]);
      }
    }
  }

  /** Where everything is after an insertion. */
  lemma EmplaceAt(q: seq<QElem>, e: QElem)
    ensures var p, r := Position(q, e), Emplace(q, e);
            p <= |q| && |r| == |q| + 1 && r[p] == e && (forall i | 0 <= i < p :: r[i] == q[i] && Leq(q[i], e)) &&
            (forall i | p < i <= |q| :: r[i] == q[i - 1]) && (p < |q| ==> Leq(e, q[p]))
  {
  }

  ghost predicate Queued(q: seq<QElem>, node: nat) {
    exists i :: 0 <= i < |q| && q[i].node == node
  }

  lemma EmplacedNodes(q: seq<QElem>, e: QElem, node: nat)
    requires IsQueue(q) && forall i | 0 <= i < |q| :: q[i].node != e.node
    ensures Queued(Emplace(q, e), node) <==> Queued(q, node) || node == e.node
  {
    EmplaceKeepsQueue(q, e);
    var r := Emplace(q, e);
    if Queued(r, node) {
      var i :| 0 <= i < |r| && r[i].node == node;
      assert r[i] in r;
      if r[i] in q {
        var j :| 0 <= j < |q| && q[j] == r[i];
      }
    }
    if Queued(q, node) {
      var i :| 0 <= i < |q| && q[i].node == node;
      assert q[i] in r;
      var j :| 0 <= j < |r| && r[j] == q[i];
    }
    if node == e.node {
      assert e in r;
      var j :| 0 <= j < |r| && r[j] == e;
    }
  }

  lemma TailQueue(q: seq<QElem>)
    requires IsQueue(q) && |q| >= 2
    ensures IsQueue(q[2..]) && forall k | 0 <= k < |q[2..]| :: q[2..][k] == q[k + 2]
    ensures forall node :: Queued(q[2..], node) <==> Queued(q, node) && node != q[0].node && node != q[1].node
  {
    forall node ensures Queued(q[2..], node) <==> Queued(q, node) && node != q[0].node && node != q[1].node {
      if Queued(q, node) && node != q[0].node && node != q[1].node {
        var i :| 0 <= i < |q| && q[i].node == node;
        assert q[2..][i - 2].node == node;
      }
      if Queued(q[2..], node) {
        var i :| 0 <= i < |q[2..]| && q[2..][i].node == node;
        assert q[i + 2].node == node;
      }
    }
  }

  /** The two smallest roots are popped and their sum is inserted. */
  function Merged(q: seq<QElem>, next: nat): seq<QElem>
    requires |q| >= 2
  {
    Emplace(q[2..], QElem(q[0].freq + q[1].freq, next))
  }

  /** Where the elements of the queue are after a merge. */
  lemma MergedElements(q: seq<QElem>, e: QElem)
    requires IsQueue(q) && |q| >= 2
    ensures var p, r := Position(q[2..], e), Emplace(q[2..], e);
            |r| == |q| - 1 && p < |r| && r[p] == e &&
            forall i | 0 <= i < |r| :: i != p ==> r[i] == q[if i < p then i + 2 else i + 1]
    ensures q[0].freq <= q[1].freq && forall i | 2 <= i < |q| :: q[1].freq <= q[i].freq
  {
    EmplaceAt(q[2..], e);
    hide Emplace, Position;
    assert Leq(q[0], q[1]);
    forall i | 2 <= i < |q| ensures q[1].freq <= q[i].freq {
      assert Leq(q[1], q[i]);
    }
  }
}
