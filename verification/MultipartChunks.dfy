/** How a body is cut into calls makes no difference to what the callbacks get, as long as its header lines have colons. */
module MultipartChunks {
  import opened MultipartSpec

  /** Only bytes of a header or of part data ever wait for the end of a call. */
  ghost predicate Waits(r: Run) {
    r.pend != [] ==> r.st.mode.Field? || r.st.mode.Value? || r.st.mode.PartData?
  }

  /** The byte ends a header line that has no colon. */
  predicate Bare(r: Run, c: Byte) { r.st.mode.Field? && c == CR }

  /** No header line of `s` that is not blank lacks its colon. */
  ghost predicate Coloned(boundary: seq<Byte>, r: Run, s: seq<Byte>)
    requires Ready(boundary, r.st)
    decreases |s|
  {
    s != [] ==>
      && !Bare(r, s[0])
      && (Feed(boundary, r, s[0]).Some? ==> Coloned(boundary, Feed(boundary, r, s[0]).value, s[1..]))
  }

  /** Two calls in progress that differ only in what waits and what was handed over already. */
  ghost predicate Same(r: Run, t: Run) { t.st == r.st && t.out + t.pend == r.out + r.pend && Waits(r) && Waits(t) }

  lemma FeedSame(boundary: seq<Byte>, r: Run, t: Run, c: Byte)
    requires Ready(boundary, r.st) && Same(r, t) && !Bare(r, c)
    ensures Feed(boundary, r, c).Some? <==> Feed(boundary, t, c).Some?
    ensures Feed(boundary, r, c).Some? ==> Same(Feed(boundary, r, c).value, Feed(boundary, t, c).value)
  {
    if r.st.mode.Field? || r.st.mode.Value? || r.st.mode.PartData? {
      Joins(r, t);
      match r.st.mode
      case Field => KeepSame(r, t, Field, FieldByte(c));
      case Value => KeepSame(r, t, Value, ValueByte(c));
      case _ => PartSame(r, t, c);
    } else {
      assert r.pend == [] && t.pend == [] && r.out + [] == r.out && t.out + [] == t.out;
    }
  }

  lemma Joins(r: Run, t: Run)
    requires Same(r, t)
    ensures Flush(t).out == Flush(r).out
  {
  }

  lemma KeepSame(r: Run, t: Run, mode: Mode, o: Out)
    requires t.st.index == r.st.index && t.out + t.pend == r.out + r.pend && (mode.Field? || mode.Value? || mode.PartData?)
    ensures Same(Keep(Go(r, mode), o), Keep(Go(t, mode), o))
  {
    assert t.out + (t.pend + [o]) == (t.out + t.pend) + [o];
    assert r.out + (r.pend + [o]) == (r.out + r.pend) + [o];
  }

  lemma PartSame(r: Run, t: Run, c: Byte)
    requires t.st.index == r.st.index && t.out + t.pend == r.out + r.pend
    ensures Same(FeedPart(r, c), FeedPart(t, c))
  {
    KeepSame(r, t, PartData, PartByte(c));
  }

  lemma {:induction false} FeedAllSame(boundary: seq<Byte>, r: Run, t: Run, s: seq<Byte>)
    requires Ready(boundary, r.st) && Same(r, t) && Coloned(boundary, r, s)
    ensures FeedAll(boundary, r, s).Some? <==> FeedAll(boundary, t, s).Some?
    ensures FeedAll(boundary, r, s).Some? ==> Same(FeedAll(boundary, r, s).value, FeedAll(boundary, t, s).value)
    decreases |s|
  {
    if s != [] {
      hide Feed, Same;
      FeedSame(boundary, r, t, s[0]);
      var u, v := Feed(boundary, r, s[0]), Feed(boundary, t, s[0]);
      if u.Some? {
        assert v.value.st == u.value.st by { SameSt(u.value, v.value); }
        FeedAllSame(boundary, u.value, v.value, s[1..]);
      }
    }
  }

  lemma SameSt(r: Run, t: Run)
    requires Same(r, t)
    ensures t.st == r.st
  {
  }

  lemma {:induction false} ColonedSplit(boundary: seq<Byte>, r: Run, a: seq<Byte>, b: seq<Byte>)
    requires Ready(boundary, r.st) && Coloned(boundary, r, a + b)
    ensures Coloned(boundary, r, a)
    ensures FeedAll(boundary, r, a).Some? ==> Coloned(boundary, FeedAll(boundary, r, a).value, b)
    decreases |a|
  {
    if a == [] {
      assert a + b == b;
    } else {
      assert (a + b)[0] == a[0] && (a + b)[1..] == a[1..] + b;
      var u := Feed(boundary, r, a[0]);
      if u.Some? { ColonedSplit(boundary, u.value, a[1..], b); }
    }
  }

  /** What a call hands over comes after what was handed over before. */
  lemma FeedShift(boundary: seq<Byte>, r: Run, before: seq<Out>, c: Byte)
    requires Ready(boundary, r.st)
    ensures Feed(boundary, r, c).Some? <==> Feed(boundary, r.(out := before + r.out), c).Some?
    ensures Feed(boundary, r, c).Some? ==>
              Feed(boundary, r.(out := before + r.out), c).value == Feed(boundary, r, c).value.(out := before + Feed(boundary, r, c).value.out)
  {
    Shift(before, r.out, r.pend);
    match r.st.mode
    case Start | StartBoundary => Shift(before, r.out, [OnPartBegin]);
    case PartStart => Shift(before, r.out, [OnHeadersComplete]); Shift(before, r.out + [OnHeadersComplete], r.pend);
    case AlmostBoundary => Shift(before, r.out, [PartByte(CR)]); Shift(before, r.out + [PartByte(CR)], r.pend);
    case Boundary =>
      var held := Parts([CR, LF] + boundary[..r.st.index]);
      Shift(before, r.out, held);
      Shift(before, r.out + held, r.pend);
      Shift(before, r.out, [OnPartEnd]);
    case FinalHyphen => Shift(before, r.out, [OnBodyEnd]);
    case PartEnd => Shift(before, r.out, [OnPartBegin]);
    case _ =>
  }

  lemma Shift(a: seq<Out>, b: seq<Out>, c: seq<Out>)
    ensures (a + b) + c == a + (b + c)
  {
  }

  lemma {:induction false} FeedAllShift(boundary: seq<Byte>, r: Run, before: seq<Out>, s: seq<Byte>)
    requires Ready(boundary, r.st)
    ensures FeedAll(boundary, r, s).Some? <==> FeedAll(boundary, r.(out := before + r.out), s).Some?
    ensures var u, v := FeedAll(boundary, r, s), FeedAll(boundary, r.(out := before + r.out), s);
            u.Some? ==> v.value == u.value.(out := before + u.value.out)
    decreases |s|
  {
    if s != [] {
      FeedShift(boundary, r, before, s[0]);
      var u := Feed(boundary, r, s[0]);
      hide Feed;
      if u.Some? { FeedAllShift(boundary, u.value, before, s[1..]); }
    }
  }

  /** Two calls are as good as one. */
  lemma TwoCalls(boundary: seq<Byte>, st: St, a: seq<Byte>, b: seq<Byte>)
    requires Ready(boundary, st) && Coloned(boundary, Run(st, [], []), a + b)
    ensures var u := Call(boundary, st, a);
            if u.None? then Call(boundary, st, a + b).None?
            else
              var v := Call(boundary, u.value.st, b);
              Call(boundary, st, a + b) == if v.None? then None else Some(Run(v.value.st, u.value.out + v.value.out, []))
  {
    hide Feed, Same;
    var r := Run(st, [], []);
    FeedAllAppend(boundary, r, a, b);
    ColonedSplit(boundary, r, a, b);
    WaitsAll(boundary, r, a);
    var u := FeedAll(boundary, r, a);
    if u.Some? {
      var t := Flush(u.value);
      FlushSame(u.value);
      FeedAllSame(boundary, u.value, t, b);
      FeedAllShift(boundary, Run(t.st, [], []), t.out, b);
      assert Run(t.st, [], []).(out := t.out + []) == t;
      var v, w := FeedAll(boundary, u.value, b), FeedAll(boundary, Run(t.st, [], []), b);
      if v.Some? { EndsSame(v.value, w.value, t.out); }
    }
  }

  lemma FlushSame(r: Run)
    requires Waits(r)
    ensures Same(r, Flush(r)) && Flush(r).st == r.st
  {
  }

  lemma EndsSame(v: Run, w: Run, before: seq<Out>)
    requires Same(v, w.(out := before + w.out))
    ensures Flush(v) == Run(w.st, before + (w.out + w.pend), [])
  {
    Shift(before, w.out, w.pend);
  }

  lemma WaitsOne(boundary: seq<Byte>, r: Run, c: Byte)
    requires Ready(boundary, r.st) && Waits(r) && Feed(boundary, r, c).Some?
    ensures Waits(Feed(boundary, r, c).value)
  {
  }

  lemma {:induction false} WaitsAll(boundary: seq<Byte>, r: Run, s: seq<Byte>)
    requires Ready(boundary, r.st) && Waits(r)
    ensures FeedAll(boundary, r, s).Some? ==> Waits(FeedAll(boundary, r, s).value)
    decreases |s|
  {
    if s != [] && Feed(boundary, r, s[0]).Some? {
      WaitsOne(boundary, r, s[0]);
      WaitsAll(boundary, Feed(boundary, r, s[0]).value, s[1..]);
    }
  }

  /** Any number of calls is as good as one. */
  lemma {:induction false} AnyCalls(boundary: seq<Byte>, st: St, chunks: seq<seq<Byte>>)
    requires Ready(boundary, st) && Coloned(boundary, Run(st, [], []), Concat(chunks))
    ensures Calls(boundary, st, chunks) == Call(boundary, st, Concat(chunks))
    decreases |chunks|
  {
    if chunks == [] {
      assert Flush(Run(st, [], [])) == Run(st, [], []);
    } else {
      hide Feed, Coloned;
      var a, b := chunks[0], Concat(chunks[1..]);
      TwoCalls(boundary, st, a, b);
      var u := Call(boundary, st, a);
      if u.Some? {
        LaterColoned(boundary, st, a, b);
        AnyCalls(boundary, u.value.st, chunks[1..]);
      }
    }
  }

  lemma LaterColoned(boundary: seq<Byte>, st: St, a: seq<Byte>, b: seq<Byte>)
    requires Ready(boundary, st) && Coloned(boundary, Run(st, [], []), a + b) && Call(boundary, st, a).Some?
    ensures Coloned(boundary, Run(Call(boundary, st, a).value.st, [], []), b)
  {
    var r := Run(st, [], []);
    ColonedSplit(boundary, r, a, b);
    ColonedState(boundary, FeedAll(boundary, r, a).value, Run(Call(boundary, st, a).value.st, [], []), b);
  }

  /** Whether lines have colons depends on the state alone. */
  lemma {:induction false} ColonedState(boundary: seq<Byte>, r: Run, t: Run, s: seq<Byte>)
    requires Ready(boundary, r.st) && t.st == r.st && Coloned(boundary, r, s)
    ensures Coloned(boundary, t, s)
    decreases |s|
  {
    if s != [] && Feed(boundary, r, s[0]).Some? {
      ColonedState(boundary, Feed(boundary, r, s[0]).value, Feed(boundary, t, s[0]).value, s[1..]);
    }
  }

  // ---- the converse: a header line without a colon tells the calls apart ----

  lemma {:induction false} FindBare(boundary: seq<Byte>, r: Run, s: seq<Byte>) returns (k: nat)
    requires Ready(boundary, r.st) && !Coloned(boundary, r, s)
    ensures k < |s| && FeedAll(boundary, r, s[..k]).Some? && Bare(FeedAll(boundary, r, s[..k]).value, s[k])
    decreases |s|
  {
    if Bare(r, s[0]) {
      k := 0;
    } else {
      var j := FindBare(boundary, Feed(boundary, r, s[0]).value, s[1..]);
      k := j + 1;
      assert s[..k][0] == s[0] && s[..k][1..] == s[1..][..j];
    }
  }

  /** Inside a header name, bytes wait. */
  lemma {:induction false} NameWaits(boundary: seq<Byte>, r: Run, s: seq<Byte>)
    requires Ready(boundary, r.st) && (r.st.mode.Field? ==> r.pend != [])
    ensures var u := FeedAll(boundary, r, s); u.Some? && u.value.st.mode.Field? ==> u.value.pend != []
    decreases |s|
  {
    if s != [] && Feed(boundary, r, s[0]).Some? {
      NameWaits(boundary, Feed(boundary, r, s[0]).value, s[1..]);
    }
  }

  /** Cut before the end of a line without a colon: the callbacks get its bytes, which one call drops. */
  lemma BareTells(boundary: seq<Byte>, w: seq<Byte>, k: nat)
    requires |boundary| > 0 && k < |w| && Call(boundary, St(Start, 0), w).Some?
    requires var u := FeedAll(boundary, Run(St(Start, 0), [], []), w[..k]); u.Some? && Bare(u.value, w[k])
    ensures Calls(boundary, St(Start, 0), [w[..k], w[k..]]) != Call(boundary, St(Start, 0), w)
  {
    var r := Run(St(Start, 0), [], []);
    var a, b, rest := w[..k], w[k..], w[k + 1..];
    assert w == a + b && b[0] == w[k] && b[1..] == rest;
    FeedAllAppend(boundary, r, a, b);
    NameWaits(boundary, r, a);
    var u := FeedAll(boundary, r, a).value;
    var v := Run(St(HeadersAlmostDone, u.st.index), [], []);
    hide Feed;
    BareDrops(boundary, u, w[k]);
    BareDrops(boundary, Run(u.st, [], []), w[k]);
    FeedAllShift(boundary, v, u.out, rest);
    assert v.(out := u.out + []) == Run(v.st, u.out, []);
    var x := FeedAll(boundary, v, rest);
    assert FeedAll(boundary, u, b) == FeedAll(boundary, Run(v.st, u.out, []), rest);
    assert FeedAll(boundary, Run(u.st, [], []), b) == x;
    assert Call(boundary, St(Start, 0), w).value.out == (u.out + x.value.out) + x.value.pend;
    LastCall(boundary, u.st, b);
    assert [w[..k], w[k..]][1..] == [b];
  }

  lemma BareDrops(boundary: seq<Byte>, u: Run, c: Byte)
    requires Ready(boundary, u.st) && Bare(u, c)
    ensures Feed(boundary, u, c) == Some(Run(St(HeadersAlmostDone, u.st.index), u.out, []))
  {
  }

  lemma LastCall(boundary: seq<Byte>, st: St, b: seq<Byte>)
    requires Ready(boundary, st)
    ensures Calls(boundary, st, [b]) == Call(boundary, st, b)
  {
    assert [b][1..] == [];
    var u := Call(boundary, st, b);
    if u.Some? { assert u.value.out + [] == u.value.out; }
  }

  /** The cuts do not matter exactly when every header line that is not blank has its colon. */
  lemma CutsDoNotMatterIff(boundary: seq<Byte>, w: seq<Byte>)
    requires |boundary| > 0 && Call(boundary, St(Start, 0), w).Some?
    ensures (forall chunks :: Concat(chunks) == w ==> Calls(boundary, St(Start, 0), chunks) == Call(boundary, St(Start, 0), w))
       <==> Coloned(boundary, Run(St(Start, 0), [], []), w)
  {
    if Coloned(boundary, Run(St(Start, 0), [], []), w) {
      forall chunks | Concat(chunks) == w ensures Calls(boundary, St(Start, 0), chunks) == Call(boundary, St(Start, 0), w) {
        AnyCalls(boundary, St(Start, 0), chunks);
      }
    } else {
      var k := FindBare(boundary, Run(St(Start, 0), [], []), w);
      BareTells(boundary, w, k);
      var chunks := [w[..k], w[k..]];
      var last: seq<seq<Byte>> := [w[k..]];
      assert chunks[1..] == last && Concat(last) == w[k..] + Concat([]);
      assert Concat(chunks) == w[..k] + (w[k..] + []);
    }
  }
}
