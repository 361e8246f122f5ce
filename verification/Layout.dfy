// Cursors over byte buffers.
module Layout {
  import opened ByteOperands

  function Zeros(n: nat): (s: seq<byte>)
    ensures |s| == n && forall i :: 0 <= i < n ==> s[i] == 0
  {
    seq(n, _ => 0)
  }

  // Neighbouring slices join.
  lemma Glue(s: seq<byte>, a: nat, b: nat, c: nat)
    requires a <= b <= c <= |s|
    ensures s[a..b] + s[b..c] == s[a..c]
  {
  }

  // A slice of a slice.
  lemma Within(s: seq<byte>, from: nat, n: nat, a: nat, b: nat)
    requires a <= b <= n && from + n <= |s|
    ensures s[from..from + n][a..b] == s[from + a..from + b]
  {
    var l, r := s[from..from + n][a..b], s[from + a..from + b];
    assert |l| == |r|;
    forall i | 0 <= i < |l|
      ensures l[i] == r[i]
    {
      assert l[i] == s[from..from + n][a + i];
    }
  }

  // The word at an offset.
  function Uint16At(s: seq<byte>, i: nat): uint16
    requires i + 2 <= |s|
  {
    Word16(s[i..i + 2])
  }

  function Uint32At(s: seq<byte>, i: nat): uint32
    requires i + 4 <= |s|
  {
    Word32(s[i..i + 4])
  }

  // Its value, byte by byte.
  lemma WordsByBytes(s: seq<byte>, i: nat)
    ensures i + 2 <= |s| ==> Uint16At(s, i) == s[i] as int + 0x100 * s[i + 1] as int
    ensures i + 4 <= |s| ==>
              Uint32At(s, i) == s[i] as int + 0x100 * s[i + 1] as int + 0x1_0000 * s[i + 2] as int
                                + 0x100_0000 * s[i + 3] as int
  {
    if i + 2 <= |s| { WordSum16(s[i..i + 2]); }
    if i + 4 <= |s| { WordSum32(s[i..i + 4]); }
  }

  lemma WordsWithin(s: seq<byte>, from: nat, n: nat, i: nat)
    requires from + n <= |s|
    ensures i + 2 <= n ==> Uint16At(s[from..from + n], i) == Uint16At(s, from + i)
    ensures i + 4 <= n ==> Uint32At(s[from..from + n], i) == Uint32At(s, from + i)
  {
    if i + 2 <= n { Within(s, from, n, i, i + 2); }
    if i + 4 <= n { Within(s, from, n, i, i + 4); }
  }

  // The pieces of a concatenation.
  lemma Pieces(a: seq<byte>, b: seq<byte>, c: seq<byte>, d: seq<byte>, e: seq<byte>)
    ensures var s := a + b + c + d + e;
            var i, j, k := |a| + |b|, |a| + |b| + |c|, |a| + |b| + |c| + |d|;
            s[..|a|] == a && s[|a|..i] == b && s[i..j] == c && s[j..k] == d && s[k..] == e
  {
  }

  // The copyAndAdvance overloads: the cursor `from` is passed in and comes back
  // advanced, and stays where it is when too few bytes are left before end.

  // On a std::array.
  method ReadArray(buf: seq<byte>, from0: nat, n: nat, end: nat) returns (ok: bool, from: nat, arr: seq<byte>)
    requires from0 <= end <= |buf|
    ensures ok == (from0 + n <= end)
    ensures if ok then from == from0 + n && arr == buf[from0..from] else from == from0
  {
    from := from0;
    arr := [];
    if end - from < n { return false, from, arr; }
    arr := buf[from..from + n];
    from := from + n;
    ok := true;
  }

  // On a uint16_t.
  method ReadUint16(buf: seq<byte>, from0: nat, end: nat) returns (ok: bool, from: nat, val: uint16)
    requires from0 <= end <= |buf|
    ensures ok == (from0 + 2 <= end)
    ensures if ok then from == from0 + 2 && val == Word16(buf[from0..from]) else from == from0
  {
    from := from0;
    val := 0;
    if end - from < 2 { return false, from, val; }
    ReadIsLittleEndian16(buf[from..from + 2]);
    val := SwapBytes16(ToUint16(buf[from], buf[from + 1]));
    from := from + 2;
    ok := true;
  }

  // On a uint32_t.
  method ReadUint32(buf: seq<byte>, from0: nat, end: nat) returns (ok: bool, from: nat, val: uint32)
    requires from0 <= end <= |buf|
    ensures ok == (from0 + 4 <= end)
    ensures if ok then from == from0 + 4 && val == Word32(buf[from0..from]) else from == from0
  {
    from := from0;
    val := 0;
    if end - from < 4 { return false, from, val; }
    ReadIsLittleEndian32(buf[from..from + 4]);
    val := SwapBytes32(ToUint32(buf[from], buf[from + 1], buf[from + 2], buf[from + 3]));
    from := from + 4;
    ok := true;
  }

  // std::copy into a fixed-size buffer, and std::advance of its iterator.
  method Put(ret0: seq<byte>, to0: nat, src: seq<byte>) returns (ret: seq<byte>, to: nat)
    requires to0 + |src| <= |ret0|
    ensures |ret| == |ret0| && to == to0 + |src| && ret[..to] == ret0[..to0] + src
  {
    ret, to := ret0, to0;
    var i := 0;
    while i < |src|
      invariant 0 <= i <= |src| && |ret| == |ret0|
      invariant ret[..to + i] == ret0[..to] + src[..i]
    {
      ret := ret[to + i := src[i]];
      assert ret[..to + i] == ret0[..to] + src[..i];
      assert ret[..to + i + 1] == ret[..to + i] + [src[i]];
      i := i + 1;
    }
    to := to + |src|;
  }
}
