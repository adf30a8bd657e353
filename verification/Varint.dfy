/** base/hmath.h: numbers in groups of seven bits, the least significant first. */
module Varint {
  type Byte = b: int | 0 <= b < 256

  /** The value of a varint, and how many bytes it takes; or there are not enough bytes, or more than ten. */
  datatype Decoded = Incomplete | TooLong | Decoded(value: nat, bytes: nat)

  function Encoded(v: nat): (s: seq<Byte>)
    ensures |s| > 0
    decreases v
  {
    if v < 128 then [v] else [v % 128 + 128] + Encoded(v / 128)
  }

  /** `n` more bytes may follow. */
  function Decode(s: seq<Byte>, n: nat): Decoded {
    if n == 0 then TooLong
    else if s == [] then Incomplete
    else if s[0] < 128 then Decoded(s[0], 1)
    else
      match Decode(s[1..], n - 1)
      case Decoded(v, k) => Decoded(s[0] - 128 + 128 * v, k + 1)
      case other => other
  }

  function Pow128(n: nat): nat { if n == 0 then 1 else 128 * Pow128(n - 1) }

  /** Decoding inverts encoding, whatever bytes follow. */
  lemma {:induction false} DecodeEncoded(v: nat, n: nat, tail: seq<Byte>)
    requires n > 0 && v < Pow128(n)
    ensures Decode(Encoded(v) + tail, n) == Decoded(v, |Encoded(v)|) && |Encoded(v)| <= n
    decreases v
  {
    var s := Encoded(v) + tail;
    if v >= 128 {
      assert Pow128(1) == 128 * Pow128(0);
      assert n > 1;
      DecodeEncoded(v / 128, n - 1, tail);
      assert s[1..] == Encoded(v / 128) + tail;
    }
  }

  /** Every strict beginning of an encoding is recognised as incomplete. */
  lemma {:induction false} PrefixIncomplete(v: nat, n: nat, k: nat)
    requires v < Pow128(n) && k < |Encoded(v)| <= n
    ensures Decode(Encoded(v)[..k], n) == Incomplete
    decreases v
  {
    if k > 0 {
      assert v >= 128;
      assert n > 1;
      PrefixIncomplete(v / 128, n - 1, k - 1);
      assert Encoded(v)[..k][1..] == Encoded(v / 128)[..k - 1];
    }
  }

  /** More bytes do not change what was recognised. */
  lemma {:induction false} DecodeStable(s: seq<Byte>, n: nat, more: seq<Byte>)
    requires Decode(s, n) != Incomplete
    ensures Decode(s + more, n) == Decode(s, n)
    ensures Decode(s, n).Decoded? ==> 0 < Decode(s, n).bytes <= |s| && Decode(s, n).bytes <= n
    decreases n
  {
    if n > 0 && s[0] >= 128 {
      DecodeStable(s[1..], n - 1, more);
      assert (s + more)[1..] == s[1..] + more;
    }
  }

  /** varint_encode of a non-negative value. */
  method EncodeVarint(value: nat) returns (buf: seq<Byte>)
    ensures buf == Encoded(value)
  {
    buf := [];
    var v := value;
    while true
      invariant Encoded(value) == buf + Encoded(v)
      decreases v
    {
      var ch: Byte := v % 128;
      v := v / 128;
      buf := buf + [if v == 0 then ch else ch + 128];
      if v == 0 { break; }
    }
  }

  /** varint_decode; `len` says how many bytes there are, and 0 that there are enough. On return it is the size of
      the varint, 0 when there are not enough bytes, or -1 when it is longer than ten bytes. */
  method DecodeVarint(buf: seq<Byte>, len: nat) returns (ret: nat, bytes: int)
    requires len <= |buf| && (len == 0 ==> Decode(buf, 10) != Incomplete)
    ensures match Decode(if len == 0 then buf else buf[..len], 10)
            case Incomplete => bytes == 0 && ret == 0
            case TooLong => bytes == -1
            case Decoded(v, k) => ret == v && bytes == k
  {
    hide Decode, Pow128;
    ret := 0;
    ghost var n := if len == 0 then |buf| else len;
    assert buf[..|buf|] == buf;
    var k: nat, unit: nat := 0, 1;
    while k < 10
      invariant 0 <= k <= 10 && k <= n
      invariant Decode(buf[..n], 10) == Shifted(Decode(buf[k..n], 10 - k), ret, unit, k)
    {
      DecodeEnds(buf[k..n], 10 - k);
      if len != 0 && k == len { return 0, 0; }
      var c := buf[k];
      DecodeStep(buf[k..n], 10 - k, ret, unit, k);
      assert buf[k..n][1..] == buf[k + 1..n];
      ret := ret + c % 128 * unit;
      k := k + 1;
      if c < 128 { return ret, k; }
      unit := unit * 128;
    }
    DecodeEnds(buf[k..n], 0);
    bytes := -1;
  }

  lemma DecodeEnds(s: seq<Byte>, n: nat)
    ensures n == 0 ==> Decode(s, n) == TooLong
    ensures n > 0 && s == [] ==> Decode(s, n) == Incomplete
  {
  }

  /** A decoded rest, put behind the `k` bytes read already. */
  function Shifted(d: Decoded, ret: nat, unit: nat, k: nat): Decoded {
    match d
    case Decoded(v, n) => Decoded(ret + v * unit, n + k)
    case other => other
  }

  lemma DecodeStep(s: seq<Byte>, n: nat, ret: nat, unit: nat, k: nat)
    requires n > 0 && s != []
    ensures s[0] < 128 ==> Shifted(Decode(s, n), ret, unit, k) == Decoded(ret + s[0] % 128 * unit, k + 1)
    ensures s[0] >= 128 ==>
              Shifted(Decode(s, n), ret, unit, k) == Shifted(Decode(s[1..], n - 1), ret + s[0] % 128 * unit, unit * 128, k + 1)
  {
    if s[0] >= 128 && Decode(s[1..], n - 1).Decoded? {
      var v := Decode(s[1..], n - 1).value;
      assert s[0] % 128 == s[0] - 128;
      assert (s[0] - 128 + 128 * v) * unit == (s[0] - 128) * unit + v * (unit * 128);
    }
  }
}
