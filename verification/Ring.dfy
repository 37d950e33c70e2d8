// The arithmetic of the receive ring: rd and wr chase each other around a fixed buffer, one slot of which stays empty.
module Ring {
  import opened Bytes

  predicate InRing(buf: Bytes, rd: nat, wr: nat) {
    rd < |buf| && wr < |buf|
  }

  function Used(cap: nat, rd: nat, wr: nat): int {
    if wr >= rd then wr - rd else cap - rd + wr
  }

  function Contents(buf: Bytes, rd: nat, wr: nat): (q: Bytes)
    requires InRing(buf, rd, wr)
    ensures |q| == Used(|buf|, rd, wr) < |buf|
  {
    if wr >= rd then buf[rd..wr] else buf[rd..] + buf[..wr]
  }

  lemma Wrap(x: nat, cap: nat)
    requires x < 2 * cap
    ensures x % cap == if x < cap then x else x - cap
  {
    if x >= cap {
      assert x == cap * 1 + (x - cap);
    }
  }

  // Position k of the contents, in the buffer.
  function At(cap: nat, rd: nat, k: nat): nat {
    if rd + k < cap then rd + k else rd + k - cap
  }

  lemma ContentsAt(buf: Bytes, rd: nat, wr: nat, k: nat)
    requires InRing(buf, rd, wr) && k < Used(|buf|, rd, wr)
    ensures At(|buf|, rd, k) < |buf| && Contents(buf, rd, wr)[k] == buf[At(|buf|, rd, k)]
  {
  }

  // Bytes written behind wr, over the wrap or not, are appended to the contents, whatever was there before.
  lemma Append(was: Bytes, buf: Bytes, rd: nat, wr: nat, data: Bytes, wr': nat)
    requires InRing(was, rd, wr) && |buf| == |was|
    requires |data| <= |buf| - Used(|buf|, rd, wr) - 1
    requires wr' == (wr + |data|) % |buf|
    requires forall i :: 0 <= i < |data| ==> buf[At(|buf|, wr, i)] == data[i]
    requires forall k :: 0 <= k < Used(|buf|, rd, wr) ==> buf[At(|buf|, rd, k)] == was[At(|buf|, rd, k)]
    ensures InRing(buf, rd, wr') && Contents(buf, rd, wr') == Contents(was, rd, wr) + data
  {
    Wrap(wr + |data|, |buf|);
    var q, q' := Contents(was, rd, wr), Contents(buf, rd, wr');
    assert |q'| == |q| + |data|;
    forall k | 0 <= k < |q'| ensures q'[k] == (q + data)[k] {
      ContentsAt(buf, rd, wr', k);
      if k < |q| {
        ContentsAt(was, rd, wr, k);
      } else {
        assert At(|buf|, rd, k) == At(|buf|, wr, k - |q|);
      }
    }
  }

  // Advancing rd drops bytes from the front.
  lemma Drop(buf: Bytes, rd: nat, wr: nat, n: nat, rd': nat)
    requires InRing(buf, rd, wr) && n <= Used(|buf|, rd, wr) && rd' == (rd + n) % |buf|
    ensures InRing(buf, rd', wr) && Contents(buf, rd', wr) == Contents(buf, rd, wr)[n..]
  {
    Wrap(rd + n, |buf|);
    var q, q' := Contents(buf, rd, wr), Contents(buf, rd', wr);
    assert |q'| == |q| - n;
    forall k | 0 <= k < |q'| ensures q'[k] == q[n..][k] {
      ContentsAt(buf, rd, wr, n + k);
      ContentsAt(buf, rd', wr, k);
    }
  }

  // The two copies of ring_copy yield the front of the contents.
  method Copy(dst: array<bv8>, buf: array<bv8>, rd: nat, wr: nat, len: nat)
    requires InRing(buf[..], rd, wr) && len <= Used(buf.Length, rd, wr) && len <= dst.Length && dst != buf
    modifies dst
    ensures dst[..len] == Contents(buf[..], rd, wr)[..len]
  {
    var toEnd := buf.Length - rd;
    if len <= toEnd {
      forall i | 0 <= i < len { dst[i] := buf[rd + i]; }
    } else {
      forall i | 0 <= i < toEnd { dst[i] := buf[rd + i]; }
      forall i | 0 <= i < len - toEnd { dst[toEnd + i] := buf[i]; }
    }
    forall k | 0 <= k < len ensures dst[k] == Contents(buf[..], rd, wr)[k] {
      ContentsAt(buf[..], rd, wr, k);
    }
  }

  // The contiguous free space behind wr.
  function Available(cap: nat, rd: nat, wr: nat): int
    requires rd < cap && wr < cap
  {
    var free := cap - Used(cap, rd, wr) - 1;
    if wr < rd then free else if cap - wr < free then cap - wr else free
  }

  // All free space can be filled, over the wrap, by at most two reservations, and there is some as long as any is free.
  lemma TwoReservationsFill(cap: nat, rd: nat, wr: nat, wr': nat)
    requires rd < cap && wr < cap && wr' == (wr + Available(cap, rd, wr)) % cap
    ensures var free := cap - Used(cap, rd, wr) - 1;
            && 0 <= Available(cap, rd, wr) <= free
            && (Available(cap, rd, wr) == 0 <==> free == 0)
            && Available(cap, rd, wr) + Available(cap, rd, wr') == free
            && Used(cap, rd, wr') == Used(cap, rd, wr) + Available(cap, rd, wr)
  {
    Wrap(wr + Available(cap, rd, wr), cap);
  }
}
