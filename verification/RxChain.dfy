/**
 HAL_ETH_RxLinkCallback: the pbuf chain of a packet grows at its end, and every tot_len covers the rest of the chain.
 */
module RxChain {
  import opened Bytes

  class Pbuf {
    var next: Pbuf?
    var totLen: u16
    var len: u16
  }

  /** nodes is the list that starts at start: acyclic, in order, ending at end. */
  ghost predicate Linked(nodes: seq<Pbuf>, start: Pbuf?, end: Pbuf?)
    reads nodes
  {
    && (forall i, j :: 0 <= i < j < |nodes| ==> nodes[i] != nodes[j])
    && (forall i {:trigger nodes[i].next} :: 0 <= i < |nodes| ==>
          nodes[i].next == if i + 1 < |nodes| then nodes[i + 1] else null)
    && (if nodes == [] then start == null else start == nodes[0] && end == nodes[|nodes| - 1])
  }

  ghost function Lens(nodes: seq<Pbuf>): (s: seq<u16>)
    reads nodes
    ensures |s| == |nodes|
  {
    seq(|nodes|, i requires 0 <= i < |nodes| reads nodes => nodes[i].len)
  }

  ghost function Totals(nodes: seq<Pbuf>): (s: seq<u16>)
    reads nodes
    ensures |s| == |nodes|
  {
    seq(|nodes|, i requires 0 <= i < |nodes| reads nodes => nodes[i].totLen)
  }

  function Sum(lens: seq<u16>): nat {
    if lens == [] then 0 else lens[0] as int + Sum(lens[1..])
  }

  /** Every total is the sum of the length beside it and all that follow, in sixteen bits. */
  ghost predicate Sums(totals: seq<u16>, lens: seq<u16>) {
    |totals| == |lens| && forall i :: 0 <= i < |lens| ==> totals[i] as int == Sum(lens[i..]) % 0x1_0000
  }

  ghost predicate SuffixSums(nodes: seq<Pbuf>)
    reads nodes
  {
    Sums(Totals(nodes), Lens(nodes))
  }

  /** What the loop of the callback makes of the totals. */
  ghost function Plus(totals: seq<u16>, length: u16): (s: seq<u16>)
    ensures |s| == |totals|
  {
    seq(|totals|, i requires 0 <= i < |totals| => (totals[i] as int + length as int) % 0x1_0000)
  }

  lemma {:induction false} SumAppend(lens: seq<u16>, x: u16)
    ensures Sum(lens + [x]) == Sum(lens) + x as int
  {
    if lens == [] {
      assert (lens + [x])[1..] == [];
    } else {
      assert (lens + [x])[1..] == lens[1..] + [x];
      SumAppend(lens[1..], x);
    }
  }

  lemma {:induction false} SumSuffix(lens: seq<u16>, i: nat)
    requires i <= |lens|
    ensures Sum(lens[i..]) <= Sum(lens)
  {
    if i > 0 {
      SumSuffix(lens[1..], i - 1);
      assert lens[1..][i - 1..] == lens[i..];
    }
  }

  /** While the packet is shorter than 65536 bytes nothing wraps. */
  lemma ExactTotals(nodes: seq<Pbuf>)
    requires SuffixSums(nodes) && Sum(Lens(nodes)) < 0x1_0000
    ensures forall i :: 0 <= i < |nodes| ==> nodes[i].totLen as int == Sum(Lens(nodes)[i..])
  {
    forall i | 0 <= i < |nodes| ensures nodes[i].totLen as int == Sum(Lens(nodes)[i..]) {
      SumSuffix(Lens(nodes), i);
    }
  }

  /** A new buffer with no total, then its length added to every total: the totals are right again. */
  lemma SumsGrow(totals: seq<u16>, lens: seq<u16>, length: u16)
    requires Sums(totals, lens)
    ensures Sums(Plus(totals + [0], length), lens + [length])
  {
    forall i | 0 <= i < |lens| + 1
      ensures Plus(totals + [0], length)[i] as int == Sum((lens + [length])[i..]) % 0x1_0000
    {
      assert (lens + [length])[i..] == lens[i..] + [length];
      SumAppend(lens[i..], length);
    }
  }

  /** The callback: start and end are what *pStart and *pEnd hold before and after. */
  method RxLink(start: Pbuf?, end: Pbuf?, p: Pbuf, length: u16, ghost nodes: seq<Pbuf>)
    returns (start': Pbuf?, end': Pbuf?)
    requires Linked(nodes, start, end) && SuffixSums(nodes) && p !in nodes
    modifies p, nodes
    ensures Linked(nodes + [p], start', end') && SuffixSums(nodes + [p])
    ensures Lens(nodes + [p]) == old(Lens(nodes)) + [length]
  {
    hide Linked, Totals, Lens, Plus, Sums;
    SumsGrow(Totals(nodes), Lens(nodes), length);
    start', end' := Append(start, end, p, length, nodes);
    AddToAll(start', end', length, nodes + [p]);
  }

  /** The part before the loop: the new buffer, with no total yet, becomes the end of the chain. */
  method Append(start: Pbuf?, end: Pbuf?, p: Pbuf, length: u16, ghost nodes: seq<Pbuf>)
    returns (start': Pbuf?, end': Pbuf?)
    requires Linked(nodes, start, end) && p !in nodes
    modifies p, nodes
    ensures Linked(nodes + [p], start', end')
    ensures Lens(nodes + [p]) == old(Lens(nodes)) + [length] && Totals(nodes + [p]) == old(Totals(nodes)) + [0]
  {
    p.next := null;
    p.totLen := 0;
    p.len := length;
    start', end' := start, end;
    if start' == null {
      start' := p;
    } else {
      end'.next := p;
    }
    end' := p;
  }

  /** The loop over the chain: length is added to every tot_len. */
  method AddToAll(start: Pbuf?, end: Pbuf?, length: u16, ghost nodes: seq<Pbuf>)
    requires Linked(nodes, start, end) && nodes != []
    modifies nodes
    ensures Linked(nodes, start, end) && Lens(nodes) == old(Lens(nodes))
    ensures Totals(nodes) == Plus(old(Totals(nodes)), length)
  {
    var p := start;
    ghost var k := 0;
    while p != null
      invariant k <= |nodes| && p == (if k < |nodes| then nodes[k] else null)
      invariant Linked(nodes, start, end) && forall i :: 0 <= i < |nodes| ==> nodes[i].len == old(nodes[i].len)
      invariant forall i :: 0 <= i < |nodes| ==>
        nodes[i].totLen == if i < k then (old(nodes[i].totLen) as int + length as int) % 0x1_0000
                           else old(nodes[i].totLen)
      decreases |nodes| - k
    {
      p.totLen := (p.totLen as int + length as int) % 0x1_0000;
      p := p.next;
      k := k + 1;
    }
  }

  lemma Empty(start: Pbuf?, end: Pbuf?)
    requires start == null
    ensures Linked([], start, end) && SuffixSums([]) && Lens([]) == []
  {
  }

  /** Any sequence of callbacks with distinct buffers builds one chain in arrival order. */
  method RxPacket(buffers: seq<Pbuf>, lengths: seq<u16>) returns (start: Pbuf?, end: Pbuf?)
    requires |buffers| == |lengths| && forall i, j :: 0 <= i < j < |buffers| ==> buffers[i] != buffers[j]
    modifies buffers
    ensures Linked(buffers, start, end) && Lens(buffers) == lengths && SuffixSums(buffers)
    ensures Sum(lengths) < 0x1_0000 ==> forall i :: 0 <= i < |buffers| ==> buffers[i].totLen as int == Sum(lengths[i..])
  {
    start, end := null, null;
    Empty(null, null);
    hide Linked, SuffixSums, Lens, Sum;
    for k := 0 to |buffers|
      invariant Linked(buffers[..k], start, end) && SuffixSums(buffers[..k]) && Lens(buffers[..k]) == lengths[..k]
    {
      assert buffers[..k] + [buffers[k]] == buffers[..k + 1] && lengths[..k] + [lengths[k]] == lengths[..k + 1];
      start, end := RxLink(start, end, buffers[k], lengths[k], buffers[..k]);
    }
    assert buffers[..|buffers|] == buffers && lengths[..|lengths|] == lengths;
    if Sum(lengths) < 0x1_0000 {
      ExactTotals(buffers);
    }
  }
}
