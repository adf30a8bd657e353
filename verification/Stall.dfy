/** When the loop of hio_unpack_by_length_field can meet a package of no bytes, on which it does not end. */
module Stalls {
  import opened Framing
  import Varint

  /** The one value of the length field that adds up to nothing. */
  function Zeroing(setting: Setting): (v: nat)
    requires setting.ByLength?
    ensures v < WORD
  {
    (-(setting.bodyOffset + setting.adjustment)) % WORD
  }

  lemma ZeroingOnly(b: int, v: nat)
    requires v < WORD
    ensures (b + v) % WORD == 0 <==> v == (-b) % WORD
  {
    var q, r := b / WORD, b % WORD;
    assert b == q * WORD + r;
    if r == 0 {
      assert (-b) % WORD == 0 by { Residue(-b, -q, 0); }
      Residue(b + v, q, v);
    } else {
      Residue(-b, -q - 1, WORD - r);
      if v + r < WORD { Residue(b + v, q, v + r); } else { Residue(b + v, q + 1, v + r - WORD); }
    }
  }

  lemma Residue(x: int, q: int, r: nat)
    requires x == q * WORD + r && r < WORD
    ensures x % WORD == r
  {
  }

  /** The length field cannot hold that value. A varint can hold every value. */
  predicate CannotStall(setting: Setting)
    requires setting.ByLength?
  {
    !setting.coding.ByVarint? && Zeroing(setting) >= Pow256(setting.fieldBytes)
  }

  // ---- values and codes ----

  lemma {:induction false} BigEndianBelow(s: Str)
    ensures BigEndianValue(s) < WORD && BigEndianValue(s) < Pow256(|s|)
  {
    if s != [] {
      var r := s[..|s| - 1];
      BigEndianBelow(r);
      Reduced(BigEndianValue(r) * 256 + s[|s| - 1]);
    }
  }

  lemma Reduced(x: nat)
    ensures x % WORD <= x && x % WORD < WORD
  {
  }

  lemma {:induction false} LittleEndianBelow(s: Str)
    ensures LittleEndianValue(s) < Pow256(|s|)
  {
    if s != [] { LittleEndianBelow(s[1..]); }
  }

  function LittleEndianCode(v: nat, n: nat): (s: Str)
    ensures |s| == n
  {
    if n == 0 then [] else [v % 256] + LittleEndianCode(v / 256, n - 1)
  }

  lemma {:induction false} LittleEndianDecodes(v: nat, n: nat)
    requires v < Pow256(n)
    ensures LittleEndianValue(LittleEndianCode(v, n)) == v
    decreases n
  {
    if n > 0 {
      LittleEndianDecodes(v / 256, n - 1);
      assert LittleEndianCode(v, n)[1..] == LittleEndianCode(v / 256, n - 1);
    }
  }

  /** A varint of exactly `n` bytes, the last groups perhaps empty. */
  function Padded(v: nat, n: nat): (s: Str)
    requires n > 0
    ensures |s| == n
  {
    if n == 1 then [v % 128] else [v % 128 + 128] + Padded(v / 128, n - 1)
  }

  lemma {:induction false} PaddedDecodes(v: nat, n: nat, k: nat, tail: Str)
    requires 0 < n <= k && v < Varint.Pow128(n)
    ensures Varint.Decode(Padded(v, n) + tail, k) == Varint.Decoded(v, n)
    decreases n
  {
    var s := Padded(v, n) + tail;
    assert Varint.Pow128(1) == 128 * Varint.Pow128(0);
    if n > 1 {
      PaddedDecodes(v / 128, n - 1, k - 1, tail);
      assert s[1..] == Padded(v / 128, n - 1) + tail;
    }
  }

  // ---- the condition ----

  lemma NoZeroLength(setting: Setting, w: Str)
    requires setting.ByLength? && Usable(setting) && CannotStall(setting)
    ensures Peek(setting, w) != Length(0)
  {
    if |w| >= setting.bodyOffset {
      var field := w[setting.fieldOffset..setting.fieldOffset + setting.fieldBytes];
      BigEndianBelow(field);
      LittleEndianBelow(field);
      PowFour(if setting.fieldBytes <= 4 then setting.fieldBytes else 0);
      hide BigEndianValue, LittleEndianValue, Pow256;
      ZeroingOnly(setting.bodyOffset + setting.adjustment, BigEndianValue(field));
      if setting.coding.LittleEndian? {
        ZeroingOnly(setting.bodyOffset + setting.adjustment, LittleEndianValue(field));
      }
    }
  }

  lemma {:induction false} NeverEndless(setting: Setting, w: Str)
    requires setting.ByLength? && Usable(setting) && CannotStall(setting)
    ensures !Frames(setting, w).end.Endless?
    decreases |w|
  {
    NoZeroLength(setting, w);
    hide Peek, CannotStall;
    var p := Peek(setting, w);
    if p.Length? && 0 < p.n <= |w| { NeverEndless(setting, w[p.n..]); }
  }

  function Zeros(n: nat): (s: Str)
    ensures |s| == n
  {
    seq(n, _ => 0)
  }

  /** A header with the given bytes in the place of the length field. */
  function Header(setting: Setting, field: Str): Str
    requires setting.ByLength?
  {
    Zeros(setting.fieldOffset) + field + Zeros(setting.bodyOffset)
  }

  lemma HeaderParts(setting: Setting, field: Str)
    requires setting.ByLength?
    ensures var w := Header(setting, field);
            && |w| >= setting.bodyOffset && |w| >= setting.fieldOffset + |field|
            && w[setting.fieldOffset..setting.fieldOffset + |field|] == field
            && w[setting.fieldOffset..] == field + Zeros(setting.bodyOffset)
  {
    Between(Zeros(setting.fieldOffset), field, Zeros(setting.bodyOffset));
  }

  /** A header that announces a package of no bytes. */
  function Stalling(setting: Setting): Str
    requires setting.ByLength?
  {
    match setting.coding
    case BigEndian => Header(setting, BigEndianCode(Zeroing(setting), setting.fieldBytes))
    case LittleEndian => Header(setting, LittleEndianCode(Zeroing(setting), setting.fieldBytes))
    case ByVarint => Header(setting, Padded((-(setting.bodyOffset + 5 - setting.fieldBytes + setting.adjustment)) % WORD, 5))
  }

  lemma StallingStalls(setting: Setting)
    requires setting.ByLength? && Usable(setting) && !CannotStall(setting)
    ensures Peek(setting, Stalling(setting)) == Length(0)
  {
    match setting.coding
    case BigEndian => BigEndianStalls(setting);
    case LittleEndian => LittleEndianStalls(setting);
    case ByVarint => VarintStalls(setting);
  }

  lemma BigEndianStalls(setting: Setting)
    requires setting.ByLength? && setting.coding.BigEndian? && Usable(setting) && !CannotStall(setting)
    ensures Peek(setting, Stalling(setting)) == Length(0)
  {
    var v := Zeroing(setting);
    BigEndianDecodes(v, setting.fieldBytes);
    HeaderParts(setting, BigEndianCode(v, setting.fieldBytes));
    ZeroingOnly(setting.bodyOffset + setting.adjustment, v);
    hide BigEndianValue, BigEndianCode, Pow256, Header, Zeroing;
  }

  lemma LittleEndianStalls(setting: Setting)
    requires setting.ByLength? && setting.coding.LittleEndian? && Usable(setting) && !CannotStall(setting)
    ensures Peek(setting, Stalling(setting)) == Length(0)
  {
    var v := Zeroing(setting);
    LittleEndianDecodes(v, setting.fieldBytes);
    HeaderParts(setting, LittleEndianCode(v, setting.fieldBytes));
    ZeroingOnly(setting.bodyOffset + setting.adjustment, v);
    hide LittleEndianValue, LittleEndianCode, Pow256, Header, Zeroing;
  }

  lemma VarintStalls(setting: Setting)
    requires setting.ByLength? && setting.coding.ByVarint? && Usable(setting)
    ensures Peek(setting, Stalling(setting)) == Length(0)
  {
    var b := setting.bodyOffset + 5 - setting.fieldBytes + setting.adjustment;
    var v := (-b) % WORD;
    PowFive();
    PaddedDecodes(v, 5, 10, Zeros(setting.bodyOffset));
    HeaderParts(setting, Padded(v, 5));
    ZeroingOnly(b, v);
    hide Varint.Decode, Padded, Varint.Pow128, Header;
    assert setting.bodyOffset + 5 - setting.fieldBytes + v + setting.adjustment == b + v;
  }

  lemma PowFive()
    ensures Varint.Pow128(5) >= WORD
  {
    assert Varint.Pow128(2) == 128 * Varint.Pow128(1) == 16384;
    assert Varint.Pow128(4) == 128 * Varint.Pow128(3) == 16384 * 16384;
  }

  /** No stream makes the loop meet a package of no bytes exactly when the length field cannot hold the value that adds
      up to nothing; with a varint some stream always does. */
  lemma NeverEndlessIff(setting: Setting)
    requires setting.ByLength? && Usable(setting)
    ensures (forall w :: !Frames(setting, w).end.Endless?) <==> CannotStall(setting)
  {
    hide CannotStall, Frames, Peek;
    if CannotStall(setting) {
      forall w ensures !Frames(setting, w).end.Endless? { NeverEndless(setting, w); }
    } else {
      StallingStalls(setting);
      EndlessThere(setting, Stalling(setting));
    }
  }

  lemma EndlessThere(setting: Setting, w: Str)
    requires Usable(setting) && Peek(setting, w) == Length(0)
    ensures Frames(setting, w).end.Endless?
  {
    hide Peek;
  }
}
