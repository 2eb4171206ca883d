/** The byte-array operations of the share transform: splitting fills three
    fresh share buffers index by index, joining validates two shares and
    hands a fresh output buffer to one of three recovery loops. Each method
    is proved to compute the corresponding function of module ShareSpec. */
module TShare {
  import opened ShareSpec

  /** Splits secret m into three shares under mask r (the random bytes the
      split draws, one per secret byte). */
  method SplitBytes(m: seq<Byte>, r: seq<Byte>) returns (s0: array<Byte>, s1: array<Byte>, s2: array<Byte>)
    requires |r| == |m|
    ensures fresh(s0) && fresh(s1) && fresh(s2)
    ensures [s0[..], s1[..], s2[..]] == Split(m, r)
  {
    var n := |m|;
    s0 := new Byte[n + 1];
    s0[0] := 0x00;
    s1 := new Byte[n + 1];
    s1[0] := 0x01;
    s2 := new Byte[n + 1];
    s2[0] := 0x02;
    for i := 0 to n
      invariant s0[0] == 0x00 && s1[0] == 0x01 && s2[0] == 0x02
      invariant forall j :: 0 <= j < i ==>
        s0[j + 1] == ShareByte(0, m[j], r[j]) && s1[j + 1] == ShareByte(1, m[j], r[j]) && s2[j + 1] == ShareByte(2, m[j], r[j])
    {
      var x := m[i];
      var y := r[i];
      var j := i + 1;
      s0[j] := ShareByte(0, x, y);
      s1[j] := ShareByte(1, x, y);
      s2[j] := ShareByte(2, x, y);
    }
    ShareOf(0, m, r, s0[..]);
    ShareOf(1, m, r, s1[..]);
    ShareOf(2, m, r, s2[..]);
  }

  /** Recovery loop for the shares tagged 0 (a) and 1 (b): byte i of m is
      the nibble swap of c, the XOR of their payload bytes i. */
  method JoinBytes01(m: array<Byte>, a: array<Byte>, b: array<Byte>)
    requires m.Length < a.Length && m.Length < b.Length
    modifies m
    ensures m[..] == Recover(P01, a[..], b[..], m.Length)
  {
    ghost var want := Recover(P01, a[..], b[..], m.Length);
    for i := 0 to m.Length
      invariant forall k :: 0 <= k < i ==> m[k] == want[k]
    {
      var c := a[i + 1] ^ b[i + 1];
      m[i] := RecoverByte(P01, c);
    }
    assert m[..] == want;
  }

  /** Recovery loop for the shares tagged 0 (a) and 2 (b): byte i of m is
      the high nibble of c, moved down, XOR'd with c. */
  method JoinBytes02(m: array<Byte>, a: array<Byte>, b: array<Byte>)
    requires m.Length < a.Length && m.Length < b.Length
    modifies m
    ensures m[..] == Recover(P02, a[..], b[..], m.Length)
  {
    ghost var want := Recover(P02, a[..], b[..], m.Length);
    for i := 0 to m.Length
      invariant forall k :: 0 <= k < i ==> m[k] == want[k]
    {
      var c := a[i + 1] ^ b[i + 1];
      m[i] := RecoverByte(P02, c);
    }
    assert m[..] == want;
  }

  /** Recovery loop for the shares tagged 1 (a) and 2 (b): byte i of m is
      the low nibble of c, moved up, XOR'd with c. */
  method JoinBytes12(m: array<Byte>, a: array<Byte>, b: array<Byte>)
    requires m.Length < a.Length && m.Length < b.Length
    modifies m
    ensures m[..] == Recover(P12, a[..], b[..], m.Length)
  {
    ghost var want := Recover(P12, a[..], b[..], m.Length);
    for i := 0 to m.Length
      invariant forall k :: 0 <= k < i ==> m[k] == want[k]
    {
      var c := a[i + 1] ^ b[i + 1];
      m[i] := RecoverByte(P12, c);
    }
    assert m[..] == want;
  }

  /** Recovers the secret from two tagged shares, given in either order.
      The shares are only read; on success the secret is a fresh array. */
  method JoinBytes(a: array<Byte>, b: array<Byte>) returns (res: Result<array<Byte>>)
    ensures match res
            case Ok(m) => fresh(m) && Join(a[..], b[..]) == Ok(m[..])
            case Err(e) => Join(a[..], b[..]) == Err(e)
  {
    if a.Length != b.Length {
      return Err(SizeMismatch);
    }
    if a.Length < 1 {
      return Err(InvalidShares);
    }
    var x, y := a, b;
    if x[0] > y[0] {
      x, y := y, x;
    }
    var m := new Byte[x.Length - 1];
    if x[0] == 0x00 && y[0] == 0x01 {
      JoinBytes01(m, x, y);
    } else if x[0] == 0x00 && y[0] == 0x02 {
      JoinBytes02(m, x, y);
    } else if x[0] == 0x01 && y[0] == 0x02 {
      JoinBytes12(m, x, y);
    } else {
      return Err(InvalidShares);
    }
    return Ok(m);
  }
}
