/** The circular buffers of the JTAG UART driver.  A ring of n cells is described by a read
    index `rd` and a write index `wr`; it is empty when they are equal, so it holds at most
    n - 1 elements. */
module RingBuffer {

  /** Number of elements between the two indices. */
  function Used(n: nat, rd: nat, wr: nat): (r: nat)
    requires rd < n && wr < n
  {
    if rd <= wr then wr - rd else n - rd + wr
  }

  /** The elements in the ring, oldest first. */
  function Contents<T>(buf: seq<T>, rd: nat, wr: nat): (r: seq<T>)
    requires rd < |buf| && wr < |buf|
    ensures |r| == Used(|buf|, rd, wr)
  {
    if rd <= wr then buf[rd..wr] else buf[rd..] + buf[..wr]
  }

  /** The segment the producer may fill in one copy: up to `rd - 1`, or up to the end of the
      array, leaving one cell unused. */
  function WriteRun(n: nat, rd: nat, wr: nat): (r: nat)
    requires rd < n && wr < n
    ensures r <= n - 1 - Used(n, rd, wr) && wr + r <= n
    ensures r == 0 <==> Used(n, rd, wr) == n - 1
  {
    if wr < rd then rd - 1 - wr
    else if rd > 0 then n - wr
    else n - 1 - wr
  }

  /** The segment the consumer may take in one copy: up to `wr`, or up to the end of the array. */
  function ReadRun(n: nat, rd: nat, wr: nat): (r: nat)
    requires rd < n && wr < n
    ensures r <= Used(n, rd, wr) && rd + r <= n
    ensures r == 0 <==> Used(n, rd, wr) == 0
  {
    if wr >= rd then wr - rd else n - rd
  }

  lemma ModWrap(x: nat, n: nat)
    requires 0 < n && x <= n
    ensures x % n == if x < n then x else 0
  {
    if x < n {
      assert x == 0 * n + x;
    }
  }

  /** Storing in a cell that is not in the ring does not change the contents. */
  lemma FreeCellWrite<T>(buf: seq<T>, rd: nat, wr: nat, k: nat, v: T)
    requires rd < |buf| && wr < |buf| && wr + k < |buf|
    requires k < |buf| - Used(|buf|, rd, wr)
    ensures Contents(buf[wr + k := v], rd, wr) == Contents(buf, rd, wr)
  {
  }

  /** Publishing n filled cells appends them. */
  lemma Extend<T>(buf: seq<T>, rd: nat, wr: nat, n: nat)
    requires rd < |buf| && wr < |buf| && wr + n <= |buf|
    requires n < |buf| - Used(|buf|, rd, wr)
    ensures Contents(buf, rd, (wr + n) % |buf|) == Contents(buf, rd, wr) + buf[wr..wr + n]
    ensures Used(|buf|, rd, (wr + n) % |buf|) == Used(|buf|, rd, wr) + n
  {
    ModWrap(wr + n, |buf|);
    if wr + n < |buf| {
      if rd > wr {
        assert buf[..wr + n] == buf[..wr] + buf[wr..wr + n];
      }
    } else {
      assert buf[rd..] == buf[rd..wr] + buf[wr..];
      assert buf[wr..wr + n] == buf[wr..];
    }
  }

  /** Releasing n cells removes them from the front. */
  lemma Release<T>(buf: seq<T>, rd: nat, wr: nat, n: nat)
    requires rd < |buf| && wr < |buf| && rd + n <= |buf|
    requires n <= Used(|buf|, rd, wr)
    ensures Contents(buf, rd, wr) == buf[rd..rd + n] + Contents(buf, (rd + n) % |buf|, wr)
    ensures Used(|buf|, rd, wr) == n + Used(|buf|, (rd + n) % |buf|, wr)
  {
    ModWrap(rd + n, |buf|);
    if rd + n < |buf| {
      if rd > wr {
        assert buf[rd..] == buf[rd..rd + n] + buf[rd + n..];
      }
    } else {
      assert buf[rd..rd + n] == buf[rd..];
      assert rd > wr;
    }
  }
}
