/** Transaction ids over whole runs of requests, and why a stale response is not taken for the awaited one. */
module Transactions {
  import opened Bytes
  import opened Adu
  import opened NmbsCore
  import opened Responses

  /** current_tid after k more requests. */
  function TidAfter(tid: u16, k: nat): u16 {
    if k == 0 then tid else NextTid(TidAfter(tid, k - 1))
  }

  /** Ids run through 1..65535 in a circle; zero never comes back. */
  lemma {:induction false} TidClosedForm(tid: u16, k: nat)
    requires k > 0
    ensures TidAfter(tid, k) == (tid + k - 1) % 65535 + 1
    ensures TidAfter(tid, k) != 0
  {
    if k > 1 {
      TidClosedForm(tid, k - 1);
      ModStep(tid + k - 2);
    } else {
      assert TidAfter(tid, 0) == tid;
    }
  }

  lemma ModStep(x: nat)
    ensures (x + 1) % 65535 == if x % 65535 == 65534 then 0 else x % 65535 + 1
  {
  }

  /** Two requests of a run share their id exactly when they are a multiple of 65535 requests apart. */
  lemma {:induction false} TidsCollide(tid: u16, i: nat, j: nat)
    requires 0 < i <= j
    ensures TidAfter(tid, i) == TidAfter(tid, j) <==> (j - i) % 65535 == 0
  {
    TidClosedForm(tid, i);
    TidClosedForm(tid, j);
    SameResidue(tid + i - 1, j - i);
  }

  lemma SameResidue(a: nat, d: nat)
    ensures (a + d) % 65535 == a % 65535 <==> d % 65535 == 0
  {
    var (q, r) := (a / 65535, a % 65535);
    var (p, s) := (d / 65535, d % 65535);
    assert a + d == 65535 * (q + p) + (r + s);
    Residue(q + p, r + s);
  }

  lemma Residue(q: nat, r: nat)
    requires r < 2 * 65535
    ensures (65535 * q + r) % 65535 == if r < 65535 then r else r - 65535
  {
  }

  /**
   The response to any of the 65534 requests before the current one is rejected on TCP, whatever it holds; a
   response 65535 requests old would be taken.
   */
  lemma {:induction false} StaleResponse(tid: u16, i: nat, j: nat, v: seq<u8>, unit: u8, fc: u8)
    requires 0 < i < j && |v| == BUF_SIZE && WordAt(v, 0) == TidAfter(tid, i)
    ensures j - i < 65535 ==> ResHeaderError(Tcp, v, TidAfter(tid, j), unit, fc) == InvalidMbap
    ensures ResHeaderError(Tcp, v, TidAfter(tid, j), unit, fc) == InvalidMbap <==> (j - i) % 65535 != 0
  {
    TidsCollide(tid, i, j);
  }
}
