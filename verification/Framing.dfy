/** What the framing of event/unpack.c makes of a byte stream: by fixed length, by delimiter, or by a length field. */
module Framing {
  import Varint

  type Byte = Varint.Byte
  type Str = seq<Byte>

  const WORD: nat := 0x1_0000_0000

  datatype Coding = BigEndian | LittleEndian | ByVarint

  datatype Setting =
    | Fixed(length: nat)
    | Delimited(delimiter: Str)
    | ByLength(bodyOffset: nat, fieldOffset: nat, fieldBytes: nat, adjustment: int, coding: Coding)

  /** What hio_set_unpack asserts, and what the loops rely on without asserting it. */
  predicate Usable(setting: Setting) {
    match setting
    case Fixed(length) => length > 0
    case Delimited(d) => d != []
    case ByLength(bodyOffset, fieldOffset, fieldBytes, _, coding) =>
      bodyOffset >= fieldOffset + fieldBytes
      && (coding.ByVarint? ==> fieldBytes > 0) && (coding.LittleEndian? ==> fieldBytes <= 4)
  }

  /** What is known of the package at the front: nothing yet, that its varint is too long, or its length. */
  datatype Peeked = Unknown | Bad | Length(n: nat)

  function BigEndianValue(s: Str): nat {
    if s == [] then 0 else (BigEndianValue(s[..|s| - 1]) * 256 + s[|s| - 1]) % WORD
  }

  function LittleEndianValue(s: Str): nat {
    if s == [] then 0 else s[0] + 256 * LittleEndianValue(s[1..])
  }

  predicate MatchesAt(d: Str, w: Str, m: nat) { m + |d| <= |w| && w[m..m + |d|] == d }

  /** The first place at or after `m` where `d` stands in `w`, or -1. */
  function Find(d: Str, w: Str, m: nat): int
    requires m <= |w|
    decreases |w| - m
  {
    if MatchesAt(d, w, m) then m else if m == |w| then -1 else Find(d, w, m + 1)
  }

  function Peek(setting: Setting, w: Str): Peeked
    requires Usable(setting)
  {
    match setting
    case Fixed(length) => Length(length)
    case Delimited(d) => var m := Find(d, w, 0); if m < 0 then Unknown else Length(m + |d|)
    case ByLength(bodyOffset, fieldOffset, fieldBytes, adjustment, coding) =>
      if |w| < bodyOffset then Unknown
      else
        match coding
        case BigEndian => Length((bodyOffset + BigEndianValue(w[fieldOffset..fieldOffset + fieldBytes]) + adjustment) % WORD)
        case LittleEndian => Length((bodyOffset + LittleEndianValue(w[fieldOffset..fieldOffset + fieldBytes]) + adjustment) % WORD)
        case ByVarint =>
          match Varint.Decode(w[fieldOffset..], 10)
          case Incomplete => Unknown
          case TooLong => Bad
          case Decoded(v, k) => Length((bodyOffset + k - fieldBytes + v + adjustment) % WORD)
  }

  /** Why the loop stopped. */
  datatype End = Waiting | Refused | Endless

  datatype Scan = Scan(frames: seq<Str>, rest: Str, end: End)

  /** The packages of a stream, one after the other. A package without any bytes makes the loop go on for ever. */
  function Frames(setting: Setting, w: Str): Scan
    requires Usable(setting)
    decreases |w|
  {
    match Peek(setting, w)
    case Unknown => Scan([], w, Waiting)
    case Bad => Scan([], w, Refused)
    case Length(n) =>
      if n > |w| then Scan([], w, Waiting)
      else if n == 0 then Scan([], w, Endless)
      else var s := Frames(setting, w[n..]); s.(frames := [w[..n]] + s.frames)
  }

  function Concat(frames: seq<Str>): Str {
    if frames == [] then [] else frames[0] + Concat(frames[1..])
  }

  /** No byte is lost. */
  lemma {:induction false} Conserves(setting: Setting, w: Str)
    requires Usable(setting)
    ensures var s := Frames(setting, w); Concat(s.frames) + s.rest == w
    decreases |w|
  {
    hide Peek;
    var p := Peek(setting, w);
    if p.Length? && 0 < p.n <= |w| {
      Conserves(setting, w[p.n..]);
      var s := Frames(setting, w[p.n..]);
      assert ([w[..p.n]] + s.frames)[1..] == s.frames;
      assert w == w[..p.n] + w[p.n..];
    }
  }

  lemma {:induction false} FindMore(d: Str, w: Str, v: Str, m: nat)
    requires m <= |w| && Find(d, w, m) >= 0
    ensures Find(d, w + v, m) == Find(d, w, m)
    decreases |w| - m
  {
    if MatchesAt(d, w, m) {
      assert (w + v)[m..m + |d|] == w[m..m + |d|];
    } else if m + |d| <= |w| {
      assert (w + v)[m..m + |d|] == w[m..m + |d|];
      FindMore(d, w, v, m + 1);
    } else {
      FindNone(d, w, m);
    }
  }

  lemma {:induction false} FindNone(d: Str, w: Str, m: nat)
    requires m <= |w| && m + |d| > |w|
    ensures Find(d, w, m) == -1
    decreases |w| - m
  {
    if m < |w| { FindNone(d, w, m + 1); }
  }

  /** What is known of a package that is complete does not change when more bytes come. */
  lemma PeekMore(setting: Setting, w: Str, v: Str)
    requires Usable(setting) && Peek(setting, w) != Unknown
    ensures Peek(setting, w + v) == Peek(setting, w)
  {
    match setting
    case Fixed(_) =>
    case Delimited(d) => FindMore(d, w, v, 0);
    case ByLength(_, fieldOffset, fieldBytes, _, coding) =>
      assert (w + v)[fieldOffset..fieldOffset + fieldBytes] == w[fieldOffset..fieldOffset + fieldBytes];
      if coding.ByVarint? {
        Varint.DecodeStable(w[fieldOffset..], 10, v);
        assert (w + v)[fieldOffset..] == w[fieldOffset..] + v;
      }
  }

  /** A stream may be cut anywhere: what was left over, with the bytes that follow, gives the packages that follow. */
  lemma {:induction false} Streams(setting: Setting, w: Str, v: Str)
    requires Usable(setting) && Frames(setting, w).end.Waiting?
    ensures var a := Frames(setting, w);
            var b := Frames(setting, a.rest + v);
            Frames(setting, w + v) == b.(frames := a.frames + b.frames)
    decreases |w|
  {
    hide Peek;
    var p := Peek(setting, w);
    if p.Length? && 0 < p.n <= |w| {
      PeekMore(setting, w, v);
      Streams(setting, w[p.n..], v);
      assert (w + v)[..p.n] == w[..p.n] && (w + v)[p.n..] == w[p.n..] + v;
      var a := Frames(setting, w[p.n..]);
      OneMore(w[..p.n], a.frames, Frames(setting, a.rest + v).frames);
    } else {
      NoneMore(Frames(setting, w + v).frames);
    }
  }

  lemma OneMore(f: Str, a: seq<Str>, b: seq<Str>)
    ensures [f] + (a + b) == ([f] + a) + b
  {
  }

  lemma NoneMore(b: seq<Str>)
    ensures [] + b == b
  {
  }

  /** A stream that was refused, or that is stuck, stays so. */
  lemma {:induction false} Stays(setting: Setting, w: Str, v: Str)
    requires Usable(setting) && !Frames(setting, w).end.Waiting?
    ensures Frames(setting, w + v).frames == Frames(setting, w).frames && Frames(setting, w + v).end == Frames(setting, w).end
    decreases |w|
  {
    hide Peek;
    var p := Peek(setting, w);
    PeekMore(setting, w, v);
    if p.Length? && p.n > 0 {
      Stays(setting, w[p.n..], v);
      assert (w + v)[..p.n] == w[..p.n] && (w + v)[p.n..] == w[p.n..] + v;
    }
  }

  /** Reading chunk by chunk. */
  function Chunked(setting: Setting, w: Str, chunks: seq<Str>): Scan
    requires Usable(setting)
    decreases |chunks|
  {
    var a := Frames(setting, w);
    if chunks == [] || !a.end.Waiting? then a
    else var b := Chunked(setting, a.rest + chunks[0], chunks[1..]); b.(frames := a.frames + b.frames)
  }

  /** However the stream is cut, the same packages come out, and it ends the same way. */
  lemma {:induction false} AnyChunks(setting: Setting, w: Str, chunks: seq<Str>)
    requires Usable(setting)
    ensures var a, b := Chunked(setting, w, chunks), Frames(setting, w + Concat(chunks));
            a.frames == b.frames && a.end == b.end && (a.end.Waiting? ==> a.rest == b.rest)
    decreases |chunks|
  {
    hide Frames, Peek;
    if chunks == [] {
      assert w + Concat(chunks) == w;
    } else {
      var c, more := chunks[0], Concat(chunks[1..]);
      assert w + Concat(chunks) == w + (c + more);
      var a := Frames(setting, w);
      if a.end.Waiting? {
        AnyChunks(setting, a.rest + c, chunks[1..]);
        Streams(setting, w, c + more);
        assert a.rest + (c + more) == (a.rest + c) + more;
      } else {
        Stays(setting, w, c + more);
      }
    }
  }

  // ---- what the packages are ----

  lemma {:induction false} FindFirst(d: Str, w: Str, m: nat)
    requires m <= |w|
    ensures var k := Find(d, w, m);
            if k < 0 then forall j: nat :: j >= m ==> !MatchesAt(d, w, j)
            else k >= m && MatchesAt(d, w, k) && forall j: nat :: m <= j < k ==> !MatchesAt(d, w, j)
    decreases |w| - m
  {
    if !MatchesAt(d, w, m) && m < |w| { FindFirst(d, w, m + 1); }
  }

  /** A package by delimiter ends with the first delimiter in it; what is left over holds none. */
  lemma {:induction false} DelimiterFrames(d: Str, w: Str)
    requires d != []
    ensures var s := Frames(Delimited(d), w);
            && s.end.Waiting?
            && (forall j: nat :: !MatchesAt(d, s.rest, j))
            && forall f :: f in s.frames ==> |f| >= |d| && MatchesAt(d, f, |f| - |d|) && forall j: nat :: MatchesAt(d, f, j) ==> j == |f| - |d|
    decreases |w|
  {
    FindFirst(d, w, 0);
    var m := Find(d, w, 0);
    if m >= 0 {
      var f := w[..m + |d|];
      DelimiterFrames(d, w[|f|..]);
      forall j: nat ensures MatchesAt(d, f, j) <==> j == m { FirstIn(d, w, m, j); }
      assert Peek(Delimited(d), w) == Length(|f|);
      hide Frames, Peek;
      assert Frames(Delimited(d), w) == Frames(Delimited(d), w[|f|..]).(frames := [f] + Frames(Delimited(d), w[|f|..]).frames) by {
        FirstFrame(Delimited(d), w, |f|);
      }
    }
  }

  lemma FirstFrame(setting: Setting, w: Str, n: nat)
    requires Usable(setting) && Peek(setting, w) == Length(n) && 0 < n <= |w|
    ensures var s := Frames(setting, w[n..]); Frames(setting, w) == s.(frames := [w[..n]] + s.frames)
  {
    hide Peek;
  }

  lemma FirstIn(d: Str, w: Str, m: nat, j: nat)
    requires MatchesAt(d, w, m) && forall k: nat :: k < m ==> !MatchesAt(d, w, k)
    ensures MatchesAt(d, w[..m + |d|], j) <==> j == m
  {
    var f := w[..m + |d|];
    assert f[m..m + |d|] == w[m..m + |d|];
    if j + |d| <= |f| { assert f[j..j + |d|] == w[j..j + |d|]; }
    assert MatchesAt(d, f, j) ==> MatchesAt(d, w, j);
  }

  /** A package that announces its own length, whatever follows. */
  ghost predicate Packed(setting: Setting, p: Str)
    requires Usable(setting)
  {
    p != [] && forall more :: Peek(setting, p + more) == Length(|p|)
  }

  /** The packages that were sent are the packages that come out. */
  lemma {:induction false} PackedFrames(setting: Setting, ps: seq<Str>, more: Str)
    requires Usable(setting) && forall p :: p in ps ==> Packed(setting, p)
    ensures var s := Frames(setting, more); Frames(setting, Concat(ps) + more) == s.(frames := ps + s.frames)
    decreases |ps|
  {
    if ps == [] {
      assert [] + more == more;
      NoneMore(Frames(setting, more).frames);
    } else {
      var p, w := ps[0], Concat(ps) + more;
      var rest := Concat(ps[1..]) + more;
      assert w == p + rest && w[..|p|] == p && w[|p|..] == rest;
      assert Packed(setting, p);
      FirstFrame(setting, w, |p|);
      PackedFrames(setting, ps[1..], more);
      hide Frames;
      OneMore(p, ps[1..], Frames(setting, more).frames);
      assert ps == [p] + ps[1..];
    }
  }

  /** A header with the body length as a varint. */
  lemma VarintPacked(setting: Setting, head: Str, body: Str)
    requires setting.ByLength? && setting.coding.ByVarint? && Usable(setting)
    requires setting.bodyOffset == setting.fieldOffset + setting.fieldBytes && |head| == setting.fieldOffset && setting.adjustment == 0
    requires |Varint.Encoded(|body|)| >= setting.fieldBytes
    requires |head| + |Varint.Encoded(|body|)| + |body| < WORD
    ensures Packed(setting, head + Varint.Encoded(|body|) + body)
  {
    hide Varint.Encoded, Varint.Decode, Varint.Pow128, Usable, Peek;
    PowTen();
    assert head + Varint.Encoded(|body|) + body != [] by { CodeThere(|body|); }
    forall more ensures Peek(setting, head + Varint.Encoded(|body|) + body + more) == Length(|head + Varint.Encoded(|body|) + body|) {
      Varint.DecodeEncoded(|body|, 10, body + more);
      VarintAt(setting, head, Varint.Encoded(|body|), body, more);
    }
  }

  lemma CodeThere(v: nat)
    ensures Varint.Encoded(v) != []
  {
  }

  lemma VarintAt(setting: Setting, head: Str, code: Str, body: Str, more: Str)
    requires setting.ByLength? && setting.coding.ByVarint? && Usable(setting)
    requires setting.bodyOffset == setting.fieldOffset + setting.fieldBytes && |head| == setting.fieldOffset && setting.adjustment == 0
    requires |code| >= setting.fieldBytes && |head| + |code| + |body| < WORD
    requires Varint.Decode(code + (body + more), 10) == Varint.Decoded(|body|, |code|)
    ensures Peek(setting, head + code + body + more) == Length(|head + code + body|)
  {
    hide Varint.Decode;
    var w := head + code + body + more;
    assert w[|head|..] == code + (body + more);
  }

  lemma PowTen()
    ensures Varint.Pow128(10) >= WORD
  {
    assert Varint.Pow128(2) == 16384;
    assert Varint.Pow128(4) == 16384 * 16384;
    assert Varint.Pow128(5) == 128 * Varint.Pow128(4) && Varint.Pow128(6) == 128 * Varint.Pow128(5);
    assert Varint.Pow128(8) == 16384 * Varint.Pow128(6);
    assert Varint.Pow128(10) == 16384 * Varint.Pow128(8);
  }

  function BigEndianCode(v: nat, n: nat): (s: Str)
    ensures |s| == n
  {
    if n == 0 then [] else BigEndianCode(v / 256, n - 1) + [v % 256]
  }

  lemma {:induction false} BigEndianDecodes(v: nat, n: nat)
    requires v < WORD && v < Pow256(n)
    ensures BigEndianValue(BigEndianCode(v, n)) == v
    decreases n
  {
    if n > 0 {
      BigEndianDecodes(v / 256, n - 1);
      assert BigEndianCode(v, n)[..n - 1] == BigEndianCode(v / 256, n - 1);
    }
  }

  function Pow256(n: nat): nat { if n == 0 then 1 else 256 * Pow256(n - 1) }

  lemma PowFour(n: nat)
    requires n <= 4
    ensures Pow256(n) <= WORD
  {
    assert Pow256(1) == 256 && Pow256(2) == 65536;
    assert Pow256(3) == 256 * 65536 && Pow256(4) == 65536 * 65536;
  }

  /** A header with the body length in up to four bytes, the most significant first. */
  lemma BigEndianPacked(setting: Setting, head: Str, tail: Str, body: Str)
    requires setting.ByLength? && setting.coding.BigEndian? && Usable(setting) && setting.adjustment == 0
    requires |head| == setting.fieldOffset && setting.fieldBytes <= 4 && |body| < Pow256(setting.fieldBytes)
    requires |head| + setting.fieldBytes + |tail| == setting.bodyOffset && 0 < setting.bodyOffset && setting.bodyOffset + |body| < WORD
    ensures Packed(setting, head + BigEndianCode(|body|, setting.fieldBytes) + tail + body)
  {
    var p := head + BigEndianCode(|body|, setting.fieldBytes) + tail + body;
    assert p != [];
    hide BigEndianCode, BigEndianValue, Pow256, Usable, Peek;
    forall more ensures Peek(setting, p + more) == Length(|p|) {
      BigEndianPeek(setting, head, tail, body, more);
    }
  }

  lemma BigEndianPeek(setting: Setting, head: Str, tail: Str, body: Str, more: Str)
    requires setting.ByLength? && setting.coding.BigEndian? && Usable(setting) && setting.adjustment == 0
    requires |head| == setting.fieldOffset && setting.fieldBytes <= 4 && |body| < Pow256(setting.fieldBytes)
    requires |head| + setting.fieldBytes + |tail| == setting.bodyOffset && 0 < setting.bodyOffset && setting.bodyOffset + |body| < WORD
    ensures var p := head + BigEndianCode(|body|, setting.fieldBytes) + tail + body; Peek(setting, p + more) == Length(|p|)
  {
    hide BigEndianCode, BigEndianValue, Pow256, Peek;
    BigEndianDecodes(|body|, setting.fieldBytes);
    var code := BigEndianCode(|body|, setting.fieldBytes);
    FieldOf(head, code, tail, body, more);
    var w := head + code + tail + body + more;
    Lengths(head, code, tail, body, more);
    hide Usable;
    FieldPeeked(setting, w, setting.bodyOffset + |body|);
  }

  lemma Lengths(a: Str, b: Str, c: Str, d: Str, e: Str)
    ensures |a + b + c + d| == |a| + |b| + |c| + |d| && |a + b + c + d + e| == |a| + |b| + |c| + |d| + |e|
  {
  }

  lemma FieldOf(a: Str, b: Str, c: Str, d: Str, e: Str)
    ensures (a + b + c + d + e)[|a|..|a| + |b|] == b
  {
    Between(a, b, c + d + e);
    assert a + b + (c + d + e) == a + b + c + d + e;
  }

  lemma Between(a: Str, b: Str, c: Str)
    ensures (a + b + c)[|a|..|a| + |b|] == b
  {
  }

  lemma FieldPeeked(setting: Setting, w: Str, n: nat)
    requires setting.ByLength? && setting.coding.BigEndian? && Usable(setting) && setting.adjustment == 0
    requires setting.bodyOffset <= n <= |w| && n < WORD
    requires BigEndianValue(w[setting.fieldOffset..setting.fieldOffset + setting.fieldBytes]) == n - setting.bodyOffset
    ensures Peek(setting, w) == Length(n)
  {
    hide BigEndianValue;
  }
}
