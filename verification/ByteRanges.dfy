/** Byte strings in place in a buffer. */
module ByteRanges {
  import opened Basics

  type Bytes = seq<byte>

  /** `out` stands at `pos`. */
  ghost predicate Holds(buf: Bytes, pos: nat, out: Bytes) {
    pos + |out| <= |buf| && buf[pos..pos + |out|] == out
  }

  lemma SliceOfSlice(s: Bytes, pos: nat, n: nat, o: nat, m: nat)
    requires pos + n <= |s| && o + m <= n
    ensures s[pos..pos + n][o..o + m] == s[pos + o..pos + o + m]
  {
    var x, y := s[pos..pos + n][o..o + m], s[pos + o..pos + o + m];
    forall i | 0 <= i < m ensures x[i] == y[i] {
      assert x[i] == s[pos..pos + n][o + i] == s[pos + o + i];
      assert y[i] == s[pos + o + i];
    }
  }

  lemma HoldsBoth(buf: Bytes, pos: nat, a: Bytes, b: Bytes)
    ensures Holds(buf, pos, a + b) <==> Holds(buf, pos, a) && Holds(buf, pos + |a|, b)
  {
    var n, m := |a|, |b|;
    if pos + n + m <= |buf| {
      var s := buf[pos..pos + n + m];
      SliceOfSlice(buf, pos, n + m, 0, n);
      SliceOfSlice(buf, pos, n + m, n, m);
      assert (a + b)[..n] == a && (a + b)[n..] == b;
      assert s == s[..n] + s[n..];
    }
  }
}
