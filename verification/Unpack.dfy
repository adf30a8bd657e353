/** event/unpack.c, with the read buffer of event/hevent.c: packages are cut out of the buffer in place, what is
    left over moves to its front, and the buffer grows up to package_max_length. */
module Unpack {
  import opened Framing
  import Varint

  const HIGH_WATER: nat := 65536   // READ_BUFSIZE_HIGH_WATER
  const LOOP_BUFSIZE: nat := 8192  // HLOOP_READ_BUFSIZE

  function Min(a: nat, b: nat): nat { if a < b then a else b }

  /** LIMIT(lower, v, upper). */
  function Limit(lower: nat, v: nat, upper: nat): nat { if v < lower then lower else if v > upper then upper else v }

  /** How a round of the loop over packages ends. */
  datatype Turn = Take | Stop | Refuse

  /** `n` packages of no bytes. */
  function Empties(n: nat): seq<Str> { if n == 0 then [] else Empties(n - 1) + [[]] }

  class Io {
    const setting: Setting
    const maxLen: nat            // package_max_length, which is max_read_bufsize too
    var base: array<Byte>        // readbuf.base, readbuf.len bytes long
    var tail: nat                // readbuf.tail; readbuf.head is 0 whenever bytes arrive
    var small: nat               // small_readbytes_cnt
    var closed: bool             // closed over the limit
    var delivered: seq<Str>      // what the read callback got

    ghost predicate Valid()
      reads this
    {
      && Usable(setting) && tail <= base.Length <= maxLen
      && (if setting.Fixed? then base.Length == setting.length else base.Length >= Min(LOOP_BUFSIZE, maxLen))
      && (small > 0 ==> base.Length > HIGH_WATER && !setting.Fixed?)
    }

    /** There is room for at least one byte, as nio_read asserts. */
    ghost predicate Open()
      reads this
    {
      Valid() && !closed && tail < base.Length
    }

    ghost function Pending(): Str
      requires Valid()
      reads this, base
    {
      base[..tail]
    }

    /** hio_set_unpack. */
    constructor (setting: Setting, maxLen: nat)
      requires Usable(setting) && maxLen > 0 && (setting.Fixed? ==> setting.length <= maxLen)
      ensures Open() && Pending() == [] && delivered == [] && this.setting == setting && this.maxLen == maxLen
      ensures fresh(base) && base.Length == if setting.Fixed? then setting.length else Min(LOOP_BUFSIZE, maxLen)
    {
      this.setting, this.maxLen := setting, maxLen;
      base := new Byte[if setting.Fixed? then setting.length else Min(LOOP_BUFSIZE, maxLen)];
      tail, small, closed, delivered := 0, 0, false, [];
    }

    /** hio_alloc_readbuf: the bytes read so far stay. */
    method Alloc(len: nat)
      requires Valid() && tail <= len && Min(LOOP_BUFSIZE, maxLen) <= len && !setting.Fixed?
      modifies this
      ensures Valid() && delivered == old(delivered) && tail == old(tail)
      ensures if len > maxLen then closed && base == old(base)
              else closed == old(closed) && fresh(base) && base.Length == len && Pending() == old(Pending())
    {
      if len > maxLen {
        closed := true;
        return;
      }
      var b := new Byte[len];
      for i := 0 to tail
        invariant forall j :: 0 <= j < i ==> b[j] == base[j]
        modifies b
      {
        b[i] := base[i];
      }
      assert b[..tail] == base[..tail];
      base := b;
      small := 0;
    }

    /** hio_read_cb. */
    method Deliver(p: nat, n: nat)
      requires p + n <= base.Length
      modifies `delivered, `small
      ensures delivered == old(delivered) + [base[p..p + n]]
      ensures small == if base.Length <= HIGH_WATER then old(small) else if n < base.Length / 2 then old(small) + 1 else 0
    {
      delivered := delivered + [base[p..p + n]];
      if base.Length > HIGH_WATER {
        small := if n < base.Length / 2 then small + 1 else 0;
      }
    }

    /** memmove of the bytes from `p` on to the front. */
    method MoveToFront(p: nat, remain: nat)
      requires p + remain <= base.Length
      modifies base
      ensures base[..remain] == old(base[p..p + remain])
    {
      if p == 0 { return; }
      var i := 0;
      while i < remain
        invariant 0 <= i <= remain
        invariant forall j :: 0 <= j < i ==> base[j] == old(base[p + j])
        invariant forall k :: p + i <= k < p + remain ==> base[k] == old(base[k])
      {
        base[i] := base[p + i];
        i := i + 1;
      }
    }

    /** hio_unpack_by_fixed_length. */
    method UnpackFixed() returns (handled: nat)
      requires Valid() && setting.Fixed?
      modifies this, base
      ensures Valid() && base == old(base) && closed == old(closed)
      ensures var s := Frames(setting, old(Pending()));
              delivered == old(delivered) + s.frames && Pending() == s.rest && handled == old(tail) - |s.rest|
    {
      hide Frames, Peek;
      ghost var w, out := Pending(), [];
      var p, remain := 0, tail;
      handled := 0;
      while remain >= setting.length
        invariant Valid() && tail == old(tail) && base == old(base) && base[..tail] == w && closed == old(closed)
        invariant 0 <= p && 0 <= remain && p + remain == tail && handled == p && delivered == old(delivered) + out
        invariant Frames(setting, w) == Prepend(out, Frames(setting, w[p..]))
        decreases remain
        modifies `delivered, `small
      {
        ghost var f := w[p..p + setting.length];
        FixedPeek(setting, w[p..]);
        FirstOf(setting, w, p, setting.length);
        Prepended(out, f, Frames(setting, w[p + setting.length..]));
        assert base[p..p + setting.length] == f;
        Deliver(p, setting.length);
        out := out + [f];
        handled := handled + setting.length;
        p := p + setting.length;
        remain := remain - setting.length;
      }
      FixedPeek(setting, w[p..]);
      NoFrame(setting, w[p..]);
      tail := remain;
      assert w[p..] == base[p..p + remain];
      if remain != 0 { MoveToFront(p, remain); }
    }

    /** The comparison of hio_unpack_by_delimiter at one place. */
    method DelimiterAt(d: Str, p: nat) returns (match_: bool)
      requires p + |d| <= base.Length
      ensures match_ == MatchesAt(d, base[..], p)
    {
      var i := 0;
      while i < |d|
        invariant 0 <= i <= |d| && base[p..p + i] == d[..i]
      {
        if base[p + i] != d[i] {
          assert base[..][p..p + |d|][i] != d[i];
          return false;
        }
        assert base[p..p + i + 1] == base[p..p + i] + [base[p + i]];
        i := i + 1;
      }
      assert base[..][p..p + |d|] == base[p..p + |d|] && d[..|d|] == d;
      match_ := true;
    }

    /** hio_unpack_by_delimiter: the new bytes begin at `buf`. A delimiter may begin in what was left over,
        but not before its last bytes, because the rest was searched before. */
    method UnpackDelimiter(buf: nat) returns (handled: nat)
      requires Valid() && setting.Delimited? && buf <= tail && 0 < base.Length && !closed
      requires forall j: nat :: !MatchesAt(setting.delimiter, base[..buf], j)
      modifies this, base
      ensures Valid() && delivered == old(delivered) + Frames(setting, old(Pending())).frames
      ensures base == old(base) || fresh(base)
      ensures closed <==> |Frames(setting, old(Pending())).rest| == maxLen
      ensures !closed ==> tail < base.Length && Pending() == Frames(setting, old(Pending())).rest
    {
      hide Frames, Peek, MatchesAt;
      ghost var w, out := Pending(), [];
      var d := setting.delimiter;
      var sp, p := 0, if buf + 1 < |d| then 0 else buf + 1 - |d|;
      var remain := tail - p;
      handled := 0;
      assert base[..buf] == w[..buf];
      NoEarlier(d, w, buf, p);
      while remain >= |d|
        invariant Valid() && tail == old(tail) && base == old(base) && base[..tail] == w && !closed
        invariant 0 <= sp <= p && p + remain == tail && remain >= 0 && handled == sp && delivered == old(delivered) + out
        invariant forall j: nat :: sp <= j < p ==> !MatchesAt(d, w, j)
        invariant Frames(setting, w) == Prepend(out, Frames(setting, w[sp..]))
        decreases remain
        modifies `delivered, `small
      {
        var m := DelimiterAt(d, p);
        SameMatch(d, base[..], w, p);
        if m {
          DelimiterPeek(d, w, sp, p);
          p := p + |d|;
          remain := remain - |d|;
          ghost var f := w[sp..p];
          FirstOf(setting, w, sp, p - sp);
          Prepended(out, f, Frames(setting, w[p..]));
          Slice(base, tail, sp, p);
          Deliver(sp, p - sp);
          out := out + [f];
          handled := handled + (p - sp);
          sp := p;
        } else {
          p := p + 1;
          remain := remain - 1;
        }
      }
      NothingLeft(d, w, sp, p);
      NoFrame(setting, w[sp..]);
      assert w[sp..] == base[sp..tail];
      KeepRest(sp);
    }

    /** The bytes from `sp` on, which hold no delimiter, move to the front; a full buffer grows. */
    method KeepRest(sp: nat)
      requires Valid() && setting.Delimited? && sp <= tail && 0 < base.Length && !closed
      modifies this, base
      ensures Valid() && delivered == old(delivered) && (base == old(base) || fresh(base))
      ensures closed <==> old(tail) - sp == maxLen
      ensures !closed ==> tail < base.Length && Pending() == old(base[sp..tail])
    {
      var remain := tail - sp;
      tail := remain;
      if remain != 0 {
        MoveToFront(sp, remain);
        if tail == base.Length {
          if base.Length >= maxLen {
            closed := true;
            return;
          }
          Alloc(Min(base.Length * 2, maxLen));
        }
      }
    }

    method BodyLenBig(lp: nat, bytes: nat) returns (v: nat)
      requires lp + bytes <= base.Length
      ensures v == BigEndianValue(base[lp..lp + bytes])
    {
      v := 0;
      for i := 0 to bytes
        invariant v == BigEndianValue(base[lp..lp + i])
      {
        assert base[lp..lp + i + 1][..i] == base[lp..lp + i];
        v := (v * 256 + base[lp + i]) % WORD;
      }
    }

    method BodyLenLittle(lp: nat, bytes: nat) returns (v: nat)
      requires lp + bytes <= base.Length
      ensures v == LittleEndianValue(base[lp..lp + bytes])
    {
      hide LittleEndianValue;
      v := 0;
      var unit: nat := 1;
      LittleNone([]);
      for i := 0 to bytes
        invariant LittleEndianValue(base[lp..lp + bytes]) == v + unit * LittleEndianValue(base[lp + i..lp + bytes])
      {
        ghost var s := base[lp + i..lp + bytes];
        LittleNext(s, v, unit);
        assert s[1..] == base[lp + i + 1..lp + bytes];
        v := v + unit * base[lp + i];
        unit := unit * 256;
      }
      LittleNone(base[lp + bytes..lp + bytes]);
    }

    method BodyLenVarint(lp: nat) returns (v: nat, k: int)
      requires lp < tail <= base.Length
      ensures match Varint.Decode(base[lp..tail], 10)
              case Incomplete => k == 0
              case TooLong => k == -1
              case Decoded(u, n) => v == u && k == n > 0
    {
      var field := base[lp..tail];
      assert field[..tail - lp] == field;
      v, k := Varint.DecodeVarint(field, tail - lp);
    }

    /** The header of the package at `p`: its length, or why there is none yet. */
    method ReadHeader(p: nat) returns (r: Peeked)
      requires Valid() && setting.ByLength? && p + setting.bodyOffset <= tail
      ensures r == Peek(setting, base[p..tail])
    {
      hide Varint.Decode;
      var lp, bytes := p + setting.fieldOffset, setting.fieldBytes;
      SubSlice(base, p, tail, setting.fieldOffset, setting.fieldOffset + bytes);
      match setting.coding
      case BigEndian =>
        var v := BodyLenBig(lp, bytes);
        r := Length((setting.bodyOffset + v + setting.adjustment) % WORD);
      case LittleEndian =>
        var v := BodyLenLittle(lp, bytes);
        r := Length((setting.bodyOffset + v + setting.adjustment) % WORD);
      case ByVarint =>
        SubSlice(base, p, tail, setting.fieldOffset, tail - p);
        var v, k := BodyLenVarint(lp);
        if k == 0 { return Unknown; }
        if k == -1 { return Bad; }
        r := Length((setting.bodyOffset + k - bytes + v + setting.adjustment) % WORD);
    }

    /** One round of the loop of hio_unpack_by_length_field. A package of no bytes is delivered like any other, and `p` and
        `remain` stay as they were. */
    method Round(p0: nat, remain0: nat, packageLen0: nat) returns (turn: Turn, p: nat, remain: nat, packageLen: nat)
      requires Valid() && setting.ByLength? && p0 + remain0 == tail && remain0 >= setting.bodyOffset
      modifies `delivered, `small
      ensures Valid() && p + remain == tail
      ensures var r := Peek(setting, base[p0..tail]);
              && packageLen == (if r.Length? then r.n else packageLen0)
              && turn == (if r == Bad then Refuse else if r.Length? && r.n <= remain0 then Take else Stop)
      ensures turn.Take? ==> p == p0 + packageLen && delivered == old(delivered) + [base[p0..p]]
      ensures !turn.Take? ==> p == p0 && delivered == old(delivered)
    {
      hide Peek;
      p, remain, packageLen := p0, remain0, packageLen0;
      var r := ReadHeader(p);
      if r == Unknown { return Stop, p, remain, packageLen; }
      if r == Bad { return Refuse, p, remain, packageLen; }
      packageLen := r.n;
      if remain < packageLen { return Stop, p, remain, packageLen; }
      Deliver(p, packageLen);
      turn, p, remain := Take, p + packageLen, remain - packageLen;
    }

    /** On a package of no bytes the loop goes on for ever: after any number of rounds it stands where it stood, with an
        empty package more for each. */
    method Spin(p0: nat, remain0: nat, packageLen0: nat, rounds: nat) returns (p: nat, remain: nat)
      requires Valid() && setting.ByLength? && p0 + remain0 == tail && remain0 >= setting.bodyOffset
      requires Peek(setting, base[p0..tail]) == Length(0)
      modifies `delivered, `small
      ensures Valid() && p == p0 && remain == remain0 && remain >= setting.bodyOffset
      ensures delivered == old(delivered) + Empties(rounds)
    {
      hide Peek;
      var turn, packageLen := Take, packageLen0;
      p, remain := p0, remain0;
      assert delivered + [] == delivered;
      for i := 0 to rounds
        invariant Valid() && turn.Take? && p == p0 && remain == remain0 && delivered == old(delivered) + Empties(i)
      {
        turn, p, remain, packageLen := Round(p, remain, packageLen);
        assert base[p0..p0] == [];
        assert old(delivered) + Empties(i) + [[]] == old(delivered) + (Empties(i) + [[]]);
      }
    }

    /** The loop of hio_unpack_by_length_field. */
    method CutPackages() returns (p: nat, packageLen: nat, refused: bool)
      requires Valid() && setting.ByLength? && !closed && !Frames(setting, Pending()).end.Endless?
      modifies `delivered, `small
      ensures Valid()
      ensures var s := Frames(setting, Pending());
              && p <= tail && s.rest == Pending()[p..] && (refused <==> s.end.Refused?) && !s.end.Endless?
              && delivered == old(delivered) + s.frames && (!refused ==> packageLen == Announced(setting, s))
    {
      hide Frames, Peek;
      ghost var w, out := Pending(), [];
      var remain := tail;
      p, packageLen, refused := 0, setting.bodyOffset, false;
      AppendNone(Frames(setting, w));
      while remain >= setting.bodyOffset
        invariant Valid() && base[..tail] == w && !closed && !refused
        invariant 0 <= p && 0 <= remain && p + remain == tail && delivered == old(delivered) + out
        invariant Frames(setting, w) == Prepend(out, Frames(setting, w[p..]))
        invariant packageLen == if out == [] then setting.bodyOffset else |out[|out| - 1]|
        decreases remain
      {
        Slice(base, tail, p, tail);
        ghost var q := p;
        var turn;
        turn, p, remain, packageLen := Round(p, remain, packageLen);
        if turn.Refuse? {
          RefusedNow(setting, w[p..]);
          AppendNothing(out, w[p..], Refused);
          refused := true;
          return;
        }
        if turn.Stop? {
          NoFrame(setting, w[p..]);
          AppendNothing(out, w[p..], Waiting);
          return;
        }
        EndlessNow(setting, w[q..]);
        FirstOf(setting, w, q, packageLen);
        Prepended(out, w[q..p], Frames(setting, w[p..]));
        Slice(base, tail, q, p);
        out := out + [w[q..p]];
      }
      ShortPeek(setting, w[p..]);
      NoFrame(setting, w[p..]);
      AppendNothing(out, w[p..], Waiting);
    }

    /** hio_unpack_by_length_field. */
    method UnpackLength()
      requires Valid() && setting.ByLength? && !closed && !Frames(setting, Pending()).end.Endless?
      modifies this, base
      ensures base == old(base) || fresh(base)
      ensures Valid() && var s := Frames(setting, old(Pending()));
              && delivered == old(delivered) + s.frames
              && (closed <==> s.end.Refused? || (s.rest != [] && Announced(setting, s) > maxLen))
              && (!closed ==>
                    && Pending() == s.rest
                    && (s.rest != [] && Announced(setting, s) > old(base.Length) ==> base.Length >= Announced(setting, s))
                    && (s.rest == [] || Announced(setting, s) <= old(base.Length) ==> base == old(base)))
    {
      hide Frames, Peek, Announced;
      var p, packageLen, refused := CutPackages();
      if refused {
        closed := true;
        return;
      }
      var remain := tail - p;
      assert Pending()[p..] == base[p..p + remain];
      tail := remain;
      if remain != 0 {
        MoveToFront(p, remain);
        if packageLen > base.Length {
          if packageLen > maxLen {
            closed := true;
            return;
          }
          Alloc(Limit(packageLen, base.Length * 2, maxLen));
        }
      }
    }

    /** hio_unpack. */
    method UnpackAny(buf: nat)
      requires Valid() && !closed && buf <= tail && 0 < base.Length && !Frames(setting, Pending()).end.Endless?
      requires setting.Delimited? ==> forall j: nat :: !MatchesAt(setting.delimiter, base[..buf], j)
      modifies this, base
      ensures base == old(base) || fresh(base)
      ensures Valid() && var s := Frames(setting, old(Pending()));
              && delivered == old(delivered) + s.frames
              && (closed <==> s.end.Refused? || Unfit(setting, s, maxLen))
              && (!closed ==>
                    && Pending() == s.rest && 0 < base.Length
                    && (setting.Fixed? ==> tail < base.Length && small == 0)
                    && (setting.Delimited? ==> tail < base.Length)
                    && (setting.ByLength? && tail == base.Length ==> tail == old(base.Length) && Stuffed(setting, s, tail))
                    && (Stuffed(setting, s, old(base.Length)) ==> tail == base.Length == old(base.Length)))
    {
      hide Frames, Peek;
      ghost var w := Pending();
      match setting
      case Fixed(_) =>
        FixedWaits(setting, w);
        var handled := UnpackFixed();
      case Delimited(d) =>
        DelimiterFrames(d, w);
        var handled := UnpackDelimiter(buf);
      case ByLength(_, _, _, _, _) =>
        LengthRest(setting, w);
        UnpackLength();
    }

    /** nio_read of a chunk, and hio_handle_read: unpack, then fit the size of the buffer. */
    method Receive(chunk: Str)
      requires Open() && 0 < |chunk| <= base.Length - tail
      requires setting.Delimited? ==> forall j: nat :: !MatchesAt(setting.delimiter, Pending(), j)
      requires !Frames(setting, Pending() + chunk).end.Endless?
      modifies this, base
      ensures base == old(base) || fresh(base)
      ensures var s := Frames(setting, old(Pending()) + chunk);
              && delivered == old(delivered) + s.frames
              && (closed <==> s.end.Refused? || Unfit(setting, s, maxLen) || (Stuffed(setting, s, old(base.Length)) && 2 * old(base.Length) > maxLen))
              && (!closed ==> Open() && Pending() == s.rest && s.end.Waiting?
                              && (setting.Delimited? ==> forall j: nat :: !MatchesAt(setting.delimiter, Pending(), j)))
    {
      hide Frames, Peek;
      var buf := tail;
      Append(chunk);
      ghost var w := Pending();
      if setting.Delimited? { DelimiterFrames(setting.delimiter, w); }
      UnpackAny(buf);
      if closed { return; }
      if tail == base.Length {
        Alloc(base.Length * 2);
      } else if tail < base.Length / 2 && small >= 3 {
        Alloc(base.Length / 2);
      }
    }

    /** Any number of reads of any sizes: the packages delivered are those of the bytes read, however they were cut.
        When every package fits, everything is read. */
    method ReceiveAll(data: Str, sizes: seq<nat>) returns (n: nat)
      requires Open() && Frames(setting, Pending()) == Scan([], Pending(), Waiting)
      requires !Frames(setting, Pending() + data).end.Endless?
      modifies this, base
      ensures n <= |data| && (closed || n == |data|)
      ensures delivered == old(delivered) + Frames(setting, old(Pending()) + data[..n]).frames
      ensures !closed ==> Open() && Pending() == Frames(setting, old(Pending()) + data).rest
      ensures Fit(setting, old(Pending()) + data, maxLen) ==> !closed
    {
      hide Frames, Peek, Fit, Announced, MatchesAt;
      ghost var w, out := Pending(), delivered;
      var i := 0;
      n := 0;
      Whole(w, data);
      if setting.Delimited? { DelimiterFrames(setting.delimiter, w); }
      while n < |data| && !closed
        invariant n <= |data| && Usable(setting)
        invariant delivered == out + Frames(setting, w + data[..n]).frames
        invariant !closed ==> Open() && Pending() == Frames(setting, w + data[..n]).rest && Frames(setting, w + data[..n]).end.Waiting?
        invariant !closed && setting.Delimited? ==> forall j: nat :: !MatchesAt(setting.delimiter, Pending(), j)
        invariant Fit(setting, w + data, maxLen) ==> !closed
        invariant base == old(base) || fresh(base)
        decreases |data| - n, if closed then 0 else 1
      {
        var room := Min(base.Length - tail, |data| - n);
        var k := if i < |sizes| then Limit(1, sizes[i], room) else room;
        ReceiveNext(w, data, n, k);
        assert out + Frames(setting, w + data[..n]).frames + [] == out + Frames(setting, w + data[..n]).frames;
        n, i := n + k, i + 1;
      }
    }

    /** The next read of a stream that began with `w`. */
    method ReceiveNext(ghost w: Str, data: Str, n: nat, k: nat)
      requires Open() && n + k <= |data| && 0 < k <= base.Length - tail
      requires Frames(setting, w + data[..n]).end.Waiting? && Pending() == Frames(setting, w + data[..n]).rest
      requires setting.Delimited? ==> forall j: nat :: !MatchesAt(setting.delimiter, Pending(), j)
      requires !Frames(setting, w + data).end.Endless?
      modifies this, base
      ensures base == old(base) || fresh(base)
      ensures var before := Frames(setting, w + data[..n]);
              var more := Frames(setting, before.rest + data[n..n + k]).frames;
              delivered == old(delivered) + more && Frames(setting, w + data[..n + k]).frames == before.frames + more
      ensures !closed ==> Open() && Pending() == Frames(setting, w + data[..n + k]).rest && Frames(setting, w + data[..n + k]).end.Waiting?
      ensures !closed && setting.Delimited? ==> forall j: nat :: !MatchesAt(setting.delimiter, Pending(), j)
      ensures Fit(setting, w + data, maxLen) ==> !closed
    {
      hide Frames, Peek, Fit, MatchesAt, Announced;
      ghost var before, chunk := Frames(setting, w + data[..n]), data[n..n + k];
      Cut(setting, w, data, n, k);
      Receive(data[n..n + k]);
      ghost var s := Frames(setting, before.rest + chunk);
      assert delivered == old(delivered) + s.frames;
      if setting.Fixed? { FixedWaits(setting, before.rest + chunk); }
      if setting.Delimited? { DelimiterFrames(setting.delimiter, before.rest + chunk); }
      if Fit(setting, w + data, maxLen) { FitNext(setting, w, data, n, k, maxLen, old(base.Length)); }
    }

    /** The bytes that recv put behind the ones that were left over. */
    method Append(chunk: Str)
      requires Valid() && tail + |chunk| <= base.Length
      modifies this, base
      ensures Valid() && base == old(base) && tail == old(tail) + |chunk| && Pending() == old(Pending()) + chunk
      ensures base[..old(tail)] == old(Pending()) && delivered == old(delivered) && closed == old(closed) && small == old(small)
    {
      var i := 0;
      while i < |chunk|
        invariant 0 <= i <= |chunk| && base[..tail] == old(base[..tail]) && base[tail..tail + i] == chunk[..i]
        modifies base
      {
        base[tail + i] := chunk[i];
        i := i + 1;
      }
      assert chunk[..i] == chunk;
      Halves(base, tail, tail + |chunk|);
      tail := tail + |chunk|;
    }
  }

  /** The next package cannot fit: without a delimiter within the limit, or announced to be longer. */
  ghost predicate Unfit(setting: Setting, s: Scan, maxLen: nat)
    requires Usable(setting)
  {
    match setting
    case Fixed(_) => false
    case Delimited(_) => |s.rest| == maxLen
    case ByLength(_, _, _, _, _) => s.rest != [] && Announced(setting, s) > maxLen
  }

  /** A header with an unfinished varint fills the buffer, so that its length cannot be known yet. */
  ghost predicate Stuffed(setting: Setting, s: Scan, len: nat)
    requires Usable(setting)
  {
    setting.ByLength? && s.end.Waiting? && |s.rest| == len && len > 0 && Announced(setting, s) <= len
  }

  lemma Whole(w: Str, data: Str)
    ensures w + data[..0] == w && data[..|data|] == data
  {
  }

  /** The next chunk of a stream that is not endless. */
  lemma Cut(setting: Setting, w: Str, data: Str, n: nat, k: nat)
    requires Usable(setting) && n + k <= |data| && Frames(setting, w + data[..n]).end.Waiting?
    requires !Frames(setting, w + data).end.Endless?
    ensures var a, c := Frames(setting, w + data[..n]), data[n..n + k];
            var b := Frames(setting, a.rest + c);
            Frames(setting, w + data[..n + k]) == b.(frames := a.frames + b.frames) && !b.end.Endless?
  {
    hide Frames;
    Streams(setting, w + data[..n], data[n..n + k]);
    assert w + data[..n] + data[n..n + k] == w + data[..n + k];
    assert w + data[..n + k] + data[n + k..] == w + data;
    if Frames(setting, w + data[..n + k]).end.Endless? { Stays(setting, w + data[..n + k], data[n + k..]); }
  }

  /** The stream stays within the limit: by delimiter every package does, and what is left over at the end is below it;
      by length field the header and every package announced do, and a varint cannot fill the buffer. */
  ghost predicate Fit(setting: Setting, w: Str, maxLen: nat)
    requires Usable(setting)
  {
    var s := Frames(setting, w);
    match setting
    case Fixed(_) => true
    case Delimited(_) => (forall f :: f in s.frames ==> |f| <= maxLen) && |s.rest| < maxLen
    case ByLength(bodyOffset, fieldOffset, _, _, coding) =>
      && s.end.Waiting? && (forall f :: f in s.frames ==> |f| <= maxLen)
      && bodyOffset <= maxLen && (Peek(setting, s.rest).Length? ==> Peek(setting, s.rest).n <= maxLen)
      && (coding.ByVarint? ==> fieldOffset + 10 <= Min(LOOP_BUFSIZE, maxLen))
  }

  /** The next read of a stream that stays within the limit does not close the io. */
  lemma FitNext(setting: Setting, w: Str, data: Str, n: nat, k: nat, maxLen: nat, len: nat)
    requires Usable(setting) && n + k <= |data| && Frames(setting, w + data[..n]).end.Waiting?
    requires !Frames(setting, w + data).end.Endless? && Fit(setting, w + data, maxLen)
    requires Min(LOOP_BUFSIZE, maxLen) <= len || setting.Fixed?
    ensures var r := Frames(setting, w + data[..n]).rest + data[n..n + k];
            var s := Frames(setting, r);
            !s.end.Refused? && !Unfit(setting, s, maxLen) && (|r| <= len ==> !Stuffed(setting, s, len))
  {
    hide Frames, Peek, Fit, Announced;
    Cut(setting, w, data, n, k);
    var r := Frames(setting, w + data[..n]).rest + data[n..n + k];
    match setting
    case Fixed(_) => FixedWaits(setting, r);
    case Delimited(d) =>
      DelimiterFrames(d, r);
      FitRest(setting, w, data, n + k, maxLen);
    case ByLength(_, _, _, _, _) =>
      FitLength(setting, w, data, n, k, maxLen);
      if |r| <= len { FitHeader(setting, w + data, r, maxLen, len); }
  }

  lemma FitHeader(setting: Setting, w: Str, r: Str, maxLen: nat, len: nat)
    requires setting.ByLength? && Usable(setting) && Fit(setting, w, maxLen) && Min(LOOP_BUFSIZE, maxLen) <= len && |r| <= len
    requires !Frames(setting, r).end.Endless?
    ensures !Stuffed(setting, Frames(setting, r), len)
  {
    hide Frames, Peek, Announced, Stuffed;
    StuffedHeader(setting, r, len);
  }

  /** A header fills a buffer of `len` bytes only when its varint may end behind it. */
  lemma StuffedHeader(setting: Setting, r: Str, len: nat)
    requires setting.ByLength? && Usable(setting) && |r| <= len && !Frames(setting, r).end.Endless?
    ensures Stuffed(setting, Frames(setting, r), len) ==>
              setting.coding.ByVarint? && setting.bodyOffset <= len < setting.fieldOffset + 10
  {
    hide Frames;
    LengthRest(setting, r);
    var s := Frames(setting, r);
    if Stuffed(setting, s, len) && setting.coding.ByVarint? {
      ShortVarint(s.rest[setting.fieldOffset..], 10);
    }
  }

  lemma {:induction false} ShortVarint(s: Str, n: nat)
    ensures Varint.Decode(s, n) == Varint.Incomplete ==> |s| < n
  {
    if s != [] && n > 0 { ShortVarint(s[1..], n - 1); }
  }

  /** In a buffer of `len` bytes an unfinished header can leave no room exactly when the ten bytes of a varint may not fit
      behind the bytes before it. */
  lemma StuffedIff(setting: Setting, len: nat)
    requires setting.ByLength? && Usable(setting) && len > 0
    ensures (exists w :: |w| <= len && !Frames(setting, w).end.Endless? && Stuffed(setting, Frames(setting, w), len))
            <==> setting.coding.ByVarint? && setting.bodyOffset <= len < setting.fieldOffset + 10
  {
    if w: Str :| |w| <= len && !Frames(setting, w).end.Endless? && Stuffed(setting, Frames(setting, w), len) {
      StuffedHeader(setting, w, len);
    }
    if setting.coding.ByVarint? && setting.bodyOffset <= len < setting.fieldOffset + 10 {
      var w := Unfinished(len);
      UnfinishedStuffs(setting, len);
      assert |w| <= len;
    }
  }

  /** Bytes that all promise another byte. */
  function Unfinished(len: nat): (w: Str)
    ensures |w| == len && forall c :: c in w ==> c == 128
  {
    seq(len, _ => 128)
  }

  lemma UnfinishedStuffs(setting: Setting, len: nat)
    requires setting.ByLength? && Usable(setting) && len > 0
    requires setting.coding.ByVarint? && setting.bodyOffset <= len < setting.fieldOffset + 10
    ensures Frames(setting, Unfinished(len)) == Scan([], Unfinished(len), Waiting)
    ensures Stuffed(setting, Frames(setting, Unfinished(len)), len)
  {
    var w := Unfinished(len);
    GoesOn(w[setting.fieldOffset..], 10);
    assert Peek(setting, w) == Unknown;
    NoFrame(setting, w);
  }

  lemma {:induction false} GoesOn(s: Str, n: nat)
    requires |s| < n && forall c :: c in s ==> c >= 128
    ensures Varint.Decode(s, n) == Varint.Incomplete
    decreases |s|
  {
    if s != [] {
      assert s[0] in s;
      forall c | c in s[1..] ensures c >= 128 { assert c in s; }
      GoesOn(s[1..], n - 1);
    }
  }

  /** A limit that leaves no room for the longest varint: a header that fills the buffer closes the io. */
  method HeaderFills(setting: Setting, maxLen: nat) returns (io: Io)
    requires setting.ByLength? && setting.coding.ByVarint? && Usable(setting)
    requires setting.bodyOffset <= maxLen < setting.fieldOffset + 10 && maxLen <= LOOP_BUFSIZE
    ensures io.setting == setting && io.maxLen == maxLen && io.closed && io.delivered == []
  {
    hide Frames;
    io := new Io(setting, maxLen);
    UnfinishedStuffs(setting, maxLen);
    assert [] + Unfinished(maxLen) == Unfinished(maxLen);
    io.Receive(Unfinished(maxLen));
  }

  lemma FitLength(setting: Setting, w: Str, data: Str, n: nat, k: nat, maxLen: nat)
    requires setting.ByLength? && Usable(setting) && n + k <= |data| && Frames(setting, w + data[..n]).end.Waiting?
    requires !Frames(setting, w + data).end.Endless? && Fit(setting, w + data, maxLen)
    ensures var s := Frames(setting, Frames(setting, w + data[..n]).rest + data[n..n + k]);
            s.end.Waiting? && !Unfit(setting, s, maxLen)
  {
    hide Frames, Peek;
    Cut(setting, w, data, n, k);
    var a, r := Frames(setting, w + data[..n]), Frames(setting, w + data[..n]).rest + data[n..n + k];
    var s, u, v := Frames(setting, r), w + data[..n + k], data[n + k..];
    assert u + v == w + data;
    LengthRest(setting, r);
    if !s.end.Waiting? {
      Stays(setting, u, v);
      assert false;
    }
    Streams(setting, u, v);
    var t := Frames(setting, s.rest + v);
    assert Frames(setting, w + data).frames == (a.frames + s.frames) + t.frames;
    assert forall f :: f in s.frames || f in t.frames ==> f in Frames(setting, w + data).frames;
    if Peek(setting, s.rest).Length? {
      PeekMore(setting, s.rest, v);
      AnnouncedNext(setting, s.rest + v);
    }
  }

  /** A package announced is the first of the stream, or what is left over announces it. */
  lemma AnnouncedNext(setting: Setting, w: Str)
    requires Usable(setting) && Peek(setting, w).Length? && Peek(setting, w).n > 0
    ensures var s, m := Frames(setting, w), Peek(setting, w).n;
            if m <= |w| then s.frames != [] && s.frames[0] in s.frames && |s.frames[0]| == m
            else Peek(setting, s.rest) == Length(m)
  {
    hide Peek;
  }

  /** What waits is part of a package that comes later, or of what is left over at the end. */
  lemma FitRest(setting: Setting, w: Str, data: Str, n: nat, maxLen: nat)
    requires setting.Delimited? && Usable(setting) && n <= |data| && Fit(setting, w + data, maxLen)
    ensures |Frames(setting, w + data[..n]).rest| < maxLen
  {
    hide Frames;
    var u, v := w + data[..n], data[n..];
    var a := Frames(setting, u);
    DelimiterFrames(setting.delimiter, u);
    Streams(setting, u, v);
    assert u + v == w + data;
    Longer(setting, a.rest, v);
  }

  lemma Longer(setting: Setting, r: Str, v: Str)
    requires setting.Delimited? && Usable(setting) && forall j: nat :: !MatchesAt(setting.delimiter, r, j)
    ensures var s := Frames(setting, r + v);
            if s.frames == [] then |s.rest| >= |r| else s.frames[0] in s.frames && |s.frames[0]| > |r|
  {
    var d := setting.delimiter;
    FindFirst(d, r + v, 0);
    var m := Find(d, r + v, 0);
    if m >= 0 { Prefix(d, r, v, m); }
  }

  lemma Prefix(d: Str, r: Str, v: Str, m: nat)
    ensures m + |d| <= |r| ==> (MatchesAt(d, r, m) <==> MatchesAt(d, r + v, m))
  {
    if m + |d| <= |r| { assert r[m..m + |d|] == (r + v)[m..m + |d|]; }
  }

  lemma FixedWaits(setting: Setting, w: Str)
    requires setting.Fixed? && Usable(setting)
    ensures Frames(setting, w).end.Waiting? && |Frames(setting, w).rest| < setting.length
    decreases |w|
  {
    if |w| >= setting.length { FixedWaits(setting, w[setting.length..]); }
  }

  /** What is left over is not a whole package. */
  lemma LengthRest(setting: Setting, w: Str)
    requires setting.ByLength? && Usable(setting) && !Frames(setting, w).end.Endless?
    ensures var s := Frames(setting, w);
            && (s.end.Refused? || s.end.Waiting?)
            && (Peek(setting, s.rest).Length? ==> Peek(setting, s.rest).n > |s.rest|)
            && (s.end.Waiting? ==> Peek(setting, s.rest) != Bad)
            && |s.rest| <= |w| && (s.frames != [] ==> |s.rest| < |w|)
    decreases |w|
  {
    var p := Peek(setting, w);
    if p.Length? && 0 < p.n <= |w| { LengthRest(setting, w[p.n..]); }
  }

  lemma Slice(a: array<Byte>, n: nat, i: nat, j: nat)
    requires i <= j <= n <= a.Length
    ensures a[i..j] == a[..n][i..j]
  {
  }

  lemma Halves(a: array<Byte>, i: nat, j: nat)
    requires i <= j <= a.Length
    ensures a[..j] == a[..i] + a[i..j]
  {
  }

  lemma SubSlice(a: array<Byte>, p: nat, n: nat, i: nat, j: nat)
    requires p <= n <= a.Length && i <= j <= n - p
    ensures a[p..n][i..j] == a[p + i..p + j]
  {
    forall k | 0 <= k < j - i ensures a[p..n][i..j][k] == a[p + i..p + j][k] {
      assert a[p..n][i + k] == a[p + i + k];
    }
  }

  lemma LittleNone(s: Str)
    requires s == []
    ensures LittleEndianValue(s) == 0
  {
  }

  lemma LittleNext(s: Str, v: nat, unit: nat)
    requires s != []
    ensures v + unit * LittleEndianValue(s) == (v + unit * s[0]) + (unit * 256) * LittleEndianValue(s[1..])
  {
    Distribute(v, s[0], LittleEndianValue(s[1..]), unit);
  }

  lemma Distribute(v: nat, c: nat, rest: nat, unit: nat)
    ensures v + unit * (c + 256 * rest) == (v + unit * c) + (unit * 256) * rest
  {
    assert unit * (256 * rest) == (unit * 256) * rest;
  }

  lemma AppendNone(s: Scan)
    ensures Prepend([], s) == s
  {
    assert [] + s.frames == s.frames;
  }

  lemma AppendNothing(out: seq<Str>, w: Str, end: End)
    ensures Prepend(out, Scan([], w, end)) == Scan(out, w, end)
  {
    assert out + [] == out;
  }

  lemma ShortPeek(setting: Setting, w: Str)
    requires setting.ByLength? && Usable(setting) && |w| < setting.bodyOffset
    ensures Peek(setting, w) == Unknown
  {
  }

  /** What package_len holds after the loop: the length that the next package announces, or what was left there. */
  ghost function Announced(setting: Setting, s: Scan): nat
    requires setting.ByLength? && Usable(setting)
  {
    match Peek(setting, s.rest)
    case Length(n) => n
    case _ => if s.frames == [] then setting.bodyOffset else |s.frames[|s.frames| - 1]|
  }

  lemma RefusedNow(setting: Setting, w: Str)
    requires Usable(setting) && Peek(setting, w) == Bad
    ensures Frames(setting, w) == Scan([], w, Refused)
  {
    hide Peek;
  }

  lemma EndlessNow(setting: Setting, w: Str)
    requires Usable(setting)
    ensures Peek(setting, w) == Length(0) ==> Frames(setting, w).end == Endless
  {
    hide Peek;
  }

  /** An earlier delimiter would lie in what was left over. */
  lemma NoEarlier(d: Str, w: Str, buf: nat, p: nat)
    requires d != [] && buf <= |w| && (forall j: nat :: !MatchesAt(d, w[..buf], j))
    requires p == if buf + 1 < |d| then 0 else buf + 1 - |d|
    ensures forall j: nat :: j < p ==> !MatchesAt(d, w, j)
  {
    forall j: nat | j < p ensures !MatchesAt(d, w, j) {
      assert w[..buf][j..j + |d|] == w[j..j + |d|];
      assert !MatchesAt(d, w[..buf], j);
    }
  }

  /** What lies behind the bytes that were read does not matter. */
  lemma SameMatch(d: Str, b: Str, w: Str, p: nat)
    requires |w| <= |b| && b[..|w|] == w && p + |d| <= |w|
    ensures MatchesAt(d, b, p) <==> MatchesAt(d, w, p)
  {
    assert forall k :: 0 <= k < |w| ==> b[k] == b[..|w|][k] == w[k];
    assert b[p..p + |d|] == w[p..p + |d|];
  }

  lemma DelimiterPeek(d: Str, w: Str, sp: nat, p: nat)
    requires d != [] && sp <= p && MatchesAt(d, w, p) && forall j: nat :: sp <= j < p ==> !MatchesAt(d, w, j)
    ensures sp <= |w| && Peek(Delimited(d), w[sp..]) == Length(p - sp + |d|)
  {
    var v := w[sp..];
    FindFirst(d, v, 0);
    ShiftMatch(d, w, sp, p);
    forall j: nat | j < p - sp ensures !MatchesAt(d, v, j) { ShiftMatch(d, w, sp, sp + j); }
  }

  lemma ShiftMatch(d: Str, w: Str, sp: nat, p: nat)
    requires sp <= p && sp <= |w|
    ensures MatchesAt(d, w[sp..], p - sp) <==> MatchesAt(d, w, p)
  {
    if p + |d| <= |w| { assert w[sp..][p - sp..p - sp + |d|] == w[p..p + |d|]; }
  }

  lemma NothingLeft(d: Str, w: Str, sp: nat, p: nat)
    requires d != [] && sp <= p <= |w| && |w| - p < |d| && forall j: nat :: sp <= j < p ==> !MatchesAt(d, w, j)
    ensures Peek(Delimited(d), w[sp..]) == Unknown
  {
    var v := w[sp..];
    FindFirst(d, v, 0);
    forall j: nat ensures !MatchesAt(d, v, j) { ShiftMatch(d, w, sp, sp + j); }
  }

  /** The package at `p` is cut off. */
  lemma FirstOf(setting: Setting, w: Str, p: nat, n: nat)
    requires Usable(setting) && p <= |w| && Peek(setting, w[p..]) == Length(n) && 0 < n <= |w| - p
    ensures var s := Frames(setting, w[p + n..]); Frames(setting, w[p..]) == s.(frames := [w[p..p + n]] + s.frames)
  {
    FirstFrame(setting, w[p..], n);
    assert w[p..][..n] == w[p..p + n] && w[p..][n..] == w[p + n..];
  }

  lemma NoFrame(setting: Setting, w: Str)
    requires Usable(setting) && (Peek(setting, w) == Unknown || (Peek(setting, w).Length? && Peek(setting, w).n > |w|))
    ensures Frames(setting, w) == Scan([], w, Waiting)
  {
    hide Peek;
  }

  lemma FixedPeek(setting: Setting, w: Str)
    requires setting.Fixed? && Usable(setting)
    ensures Peek(setting, w) == Length(setting.length)
  {
  }

  function Prepend(frames: seq<Str>, s: Scan): Scan { s.(frames := frames + s.frames) }

  lemma Prepended(frames: seq<Str>, f: Str, s: Scan)
    ensures Prepend(frames, s.(frames := [f] + s.frames)) == Prepend(frames + [f], s)
  {
    assert frames + ([f] + s.frames) == (frames + [f]) + s.frames;
  }
}
