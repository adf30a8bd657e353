/** What parse_query_params makes of any query string, field by field. */
module QueryFields {
  import opened Url
  import opened Query

  /** A field lies between two '&', or at an end of the string. */
  datatype Span = Span(from: nat, to: nat)

  /** The first '&' from `p` on, or the end. */
  function AmpFrom(s: Str, p: nat): (e: nat)
    requires p <= |s|
    ensures p <= e <= |s| && (e < |s| ==> s[e] == AMP) && forall i :: p <= i < e ==> s[i] != AMP
    decreases |s| - p
  {
    if p == |s| || s[p] == AMP then p else AmpFrom(s, p + 1)
  }

  function Fields(s: Str, p: nat): (r: seq<Span>)
    requires p <= |s|
    ensures forall f :: f in r ==> p <= f.from <= f.to <= |s|
    decreases |s| - p
  {
    var e := AmpFrom(s, p);
    [Span(p, e)] + if e == |s| then [] else Fields(s, e + 1)
  }

  /** The first '=' of a text from `i` on, or its end. */
  function EqFrom(w: Str, i: nat): (e: nat)
    requires i <= |w|
    ensures i <= e <= |w| && (e < |w| ==> w[e] == EQUALS) && forall j :: i <= j < e ==> w[j] != EQUALS
    decreases |w| - i
  {
    if i == |w| || w[i] == EQUALS then i else EqFrom(w, i + 1)
  }

  /** Where the text behind the last '=' begins. */
  function LastEq(t: Str): (n: nat)
    ensures n <= |t|
  {
    if t == [] then 0 else if t[|t| - 1] == EQUALS then |t| else LastEq(t[..|t| - 1])
  }

  function NonEq(t: Str): nat {
    if t == [] then 0 else NonEq(t[..|t| - 1]) + if t[|t| - 1] == EQUALS then 0 else 1
  }

  /** The text before the first '='. */
  function Key(w: Str): Str { w[..EqFrom(w, 0)] }

  /** The text behind the first '='. */
  function Tail(w: Str): Str { if EqFrom(w, 0) == |w| then [] else w[EqFrom(w, 0) + 1..] }

  /** The text behind the last '='. */
  function Value(w: Str): Str { Tail(w)[LastEq(Tail(w))..] }

  /** The bytes between the first and the last '=', other '=' not counted. */
  function Surplus(w: Str): nat { NonEq(Tail(w)[..LastEq(Tail(w))]) }

  lemma {:induction false} NonEqSplit(t: Str)
    ensures NonEq(t) == NonEq(t[..LastEq(t)]) + |t| - LastEq(t)
    decreases |t|
  {
    if t != [] {
      var r := t[..|t| - 1];
      if t[|t| - 1] == EQUALS {
        assert t[..|t|] == t;
      } else {
        NonEqSplit(r);
        assert t[..LastEq(t)] == r[..LastEq(r)];
      }
    }
  }

  predicate NoAmp(s: Str, p: nat, n: nat) { p + n <= |s| && forall i :: p <= i < p + n ==> s[i] != AMP }

  /** The pass over the bytes behind the first '='. */
  lemma {:induction false} RunTail(s: Str, p: nat, n: nat, st: State)
    requires NoAmp(s, p, n) && st.inValue
    ensures var t := s[p..p + n];
            Run(s, p, st) == Run(s, p + n, st.(valueLen := st.valueLen + NonEq(t),
                                               value := if LastEq(t) == 0 then st.value else p + LastEq(t)))
    decreases n
  {
    hide Run, NonEq, LastEq, Commit;
    if n > 0 {
      var r, t := s[p..p + n - 1], s[p..p + n];
      RunTail(s, p, n - 1, st);
      assert t[..n - 1] == r && t[n - 1] == s[p + n - 1];
      TailMore(t, n - 1);
      var u := st.(valueLen := st.valueLen + NonEq(r), value := if LastEq(r) == 0 then st.value else p + LastEq(r));
      RunOne(s, p + n - 1, u);
    } else {
      assert s[p..p] == [];
      TailNone();
    }
  }

  lemma TailNone()
    ensures NonEq([]) == 0 && LastEq([]) == 0
  {
  }

  lemma TailMore(t: Str, n: nat)
    requires |t| == n + 1
    ensures NonEq(t) == NonEq(t[..n]) + (if t[n] == EQUALS then 0 else 1)
    ensures LastEq(t) == if t[n] == EQUALS then |t| else LastEq(t[..n])
  {
  }

  /** What the fields before left behind: bytes counted for a value without a key, and where the last value began. */
  datatype Left = Left(bytes: nat, at: int)

  const NOTHING := Left(0, -1)

  predicate HasEq(w: Str) { EqFrom(w, 0) < |w| }

  /** What a field leaves behind. */
  function LeftBy(w: Str, to: nat, l: Left): Left {
    Left(if Key(w) == [] then l.bytes + |Value(w)| + Surplus(w) else 0, if HasEq(w) then to - |Value(w)| else l.at)
  }

  /** The variables behind the field `w`, which began at `p`. */
  function Passed(p: nat, w: Str, st: State): State {
    st.(inValue := HasEq(w), keyLen := |Key(w)|, value := if HasEq(w) then p + |w| - |Value(w)| else st.value,
        valueLen := st.valueLen + |Value(w)| + Surplus(w))
  }

  predicate Fresh(p: nat, st: State) { !st.inValue && st.key == p && st.keyLen == 0 }

  function LeftIn(st: State): Left { Left(st.valueLen, st.value) }

  lemma PassField(s: Str, p: nat, e: nat, st: State)
    requires p <= e <= |s| && NoAmp(s, p, e - p) && Fresh(p, st)
    ensures Run(s, p, st) == Run(s, e, Passed(p, s[p..e], st))
  {
    hide Run, NonEq, LastEq, Value, Surplus, Tail;
    var w := s[p..e];
    var k := EqFrom(w, 0);
    FlatKey(s, p, w, k);
    RunFlat(s, p, k, st);
    if k < |w| {
      var st1 := st.(keyLen := k);
      assert w[k] == s[p + k];
      RunOne(s, p + k, st1);
      var q := p + k + 1;
      RunTail(s, q, e - q, Step(s, p + k, st1));
      ValueCount(w);
      TailAt(s, p, e, k);
    } else {
      EmptyTail(w);
    }
  }

  lemma TailAt(s: Str, p: nat, e: nat, k: nat)
    requires p <= e <= |s| && k < e - p && EqFrom(s[p..e], 0) == k
    ensures s[p + k + 1..e] == Tail(s[p..e])
  {
  }

  lemma ValueCount(w: Str)
    ensures NonEq(Tail(w)) == |Value(w)| + Surplus(w)
    ensures HasEq(w) ==> |w| - |Value(w)| == EqFrom(w, 0) + 1 + LastEq(Tail(w))
  {
    NonEqSplit(Tail(w));
    hide NonEq, LastEq;
  }

  lemma EmptyTail(w: Str)
    requires !HasEq(w)
    ensures Key(w) == w && Value(w) == [] && Surplus(w) == 0
  {
    assert w[..|w|] == w;
  }

  lemma FlatKey(s: Str, p: nat, w: Str, k: nat)
    requires k <= |w| && p + |w| <= |s| && s[p..p + |w|] == w && (forall j :: 0 <= j < k ==> w[j] != EQUALS) && NoAmp(s, p, |w|)
    ensures Flat(s, p, k)
  {
    forall i | p <= i < p + k ensures s[i] != AMP && s[i] != EQUALS { assert s[i] == w[i - p]; }
  }

  // ---- what a field gives ----

  /** The value of a field is read past the end of the string. */
  predicate Over(s: Str, f: Span, l: Left)
    requires f.from <= f.to <= |s|
  {
    var w := s[f.from..f.to];
    Key(w) != [] && if HasEq(w) then l.bytes + Surplus(w) > |s| - f.to + 1 else !Readable(s, l.at, l.bytes)
  }

  /** What is read for its value: the text behind its last '=', and as many bytes more as stand between the first and
      the last or were left behind; the NUL counts as a byte. */
  function Taken(s: Str, f: Span, l: Left): Str
    requires f.from <= f.to <= |s| && Key(s[f.from..f.to]) != [] && !Over(s, f, l)
  {
    var w := s[f.from..f.to];
    if HasEq(w) then Value(w) + (s + [0])[f.to..f.to + l.bytes + Surplus(w)] else Read(s, l.at, l.bytes)
  }

  /** The parameters that a field adds. */
  function Added(s: Str, f: Span, l: Left, m: Params): Params
    requires f.from <= f.to <= |s|
  {
    var w := s[f.from..f.to];
    if Key(w) == [] || Over(s, f, l) then m else m[Unescaped(Key(w)) := Unescaped(Taken(s, f, l))]
  }

  lemma CommitPassed(s: Str, p: nat, e: nat, st: State)
    requires p <= e <= |s| && Fresh(p, st)
    ensures var f, u, l := Span(p, e), Passed(p, s[p..e], st), LeftIn(st);
            && Commit(s, u).params == Added(s, f, l, st.params)
            && Commit(s, u).overrun == (st.overrun || Over(s, f, l))
            && LeftIn(Commit(s, u)) == LeftBy(s[p..e], e, l)
            && Commit(s, u).keyLen == 0
  {
    hide NonEq, LastEq, Unescaped, Readable, Read, Tail, Value, Surplus;
    var w := s[p..e];
    if Key(w) != [] {
      KeyRead(s, p, e);
      if HasEq(w) { ValueRead(s, p, e, st.valueLen); } else { EmptyTail(w); }
    }
  }

  lemma KeyRead(s: Str, p: nat, e: nat)
    requires p <= e <= |s|
    ensures var k := Key(s[p..e]); Readable(s, p, |k|) && Read(s, p, |k|) == k
  {
    var k := Key(s[p..e]);
    if k != [] { assert (s + [0])[p..p + |k|] == s[p..p + |k|] == s[p..e][..|k|]; }
  }

  lemma ValueRead(s: Str, p: nat, e: nat, c: nat)
    requires p <= e <= |s| && HasEq(s[p..e])
    ensures var w := s[p..e];
            var i, n := e - |Value(w)|, c + |Value(w)| + Surplus(w);
            && (Readable(s, i, n) <==> c + Surplus(w) <= |s| - e + 1)
            && (Readable(s, i, n) ==> Read(s, i, n) == Value(w) + (s + [0])[e..e + c + Surplus(w)])
  {
    hide *;
    var w := s[p..e];
    ValueAtEnd(w);
    SliceEnd(s, p, e, |Value(w)|);
    ReadOn(s, e, Value(w), c + Surplus(w));
  }

  lemma SliceEnd(s: Str, p: nat, e: nat, n: nat)
    requires p <= e <= |s| && n <= e - p
    ensures s[p..e][e - p - n..] == s[e - n..e]
  {
  }

  lemma ValueAtEnd(w: Str)
    requires HasEq(w)
    ensures |Value(w)| <= |w| && Value(w) == w[|w| - |Value(w)|..]
  {
    hide LastEq;
    var k, n := EqFrom(w, 0) + 1, LastEq(Tail(w));
    assert w[k..][n..] == w[k + n..];
  }

  /** Reading on behind `v`, which ends at `e`. */
  lemma ReadOn(s: Str, e: nat, v: Str, n: nat)
    requires |v| <= e <= |s| && s[e - |v|..e] == v
    ensures Readable(s, e - |v|, |v| + n) <==> n <= |s| - e + 1
    ensures n <= |s| - e + 1 ==> Read(s, e - |v|, |v| + n) == v + (s + [0])[e..e + n]
  {
    var i, z := e - |v|, s + [0];
    if n <= |s| - e + 1 {
      assert z[i..e] == s[i..e];
      assert z[i..e + n] == z[i..e] + z[e..e + n];
    }
  }

  // ---- the whole string ----

  function AddFields(s: Str, fs: seq<Span>, l: Left, m: Params): Params
    requires forall f :: f in fs ==> f.from <= f.to <= |s|
  {
    if fs == [] then m else AddFields(s, fs[1..], LeftBy(s[fs[0].from..fs[0].to], fs[0].to, l), Added(s, fs[0], l, m))
  }

  /** The value of some field is read past the end of the string. */
  predicate AnyOver(s: Str, fs: seq<Span>, l: Left)
    requires forall f :: f in fs ==> f.from <= f.to <= |s|
  {
    fs != [] && (Over(s, fs[0], l) || AnyOver(s, fs[1..], LeftBy(s[fs[0].from..fs[0].to], fs[0].to, l)))
  }

  lemma {:induction false} RunFields(s: Str, p: nat, st: State)
    requires p <= |s| && Fresh(p, st)
    ensures var r, l := Run(s, p, st), LeftIn(st);
            && r.params == AddFields(s, Fields(s, p), l, st.params)
            && r.overrun == (st.overrun || AnyOver(s, Fields(s, p), l))
    decreases |s| - p
  {
    hide Run, Over, Added, Key, LeftBy, Commit, Passed, Step, Fields;
    var e := AmpFrom(s, p);
    var f := Span(p, e);
    FieldsAre(s, p);
    if e == |s| {
      LastField(s, p, st);
      AddOne(s, f, [], LeftIn(st), st.params);
    } else {
      var next := NextField(s, p, e, st);
      RunFields(s, e + 1, next);
      AddOne(s, f, Fields(s, e + 1), LeftIn(st), st.params);
    }
  }

  lemma FieldsAre(s: Str, p: nat)
    requires p <= |s|
    ensures var e, fs := AmpFrom(s, p), Fields(s, p);
            && fs == [Span(p, e)] + (if e == |s| then [] else Fields(s, e + 1))
            && forall g :: g in fs <==> g == Span(p, e) || (e < |s| && g in Fields(s, e + 1))
  {
  }

  lemma AddOne(s: Str, f: Span, fs: seq<Span>, l: Left, m: Params)
    requires f.from <= f.to <= |s| && forall g :: g in fs ==> g.from <= g.to <= |s|
    ensures (forall g :: g in [f] + fs ==> g.from <= g.to <= |s|)
    ensures AddFields(s, [f] + fs, l, m) == AddFields(s, fs, LeftBy(s[f.from..f.to], f.to, l), Added(s, f, l, m))
    ensures AnyOver(s, [f] + fs, l) <==> Over(s, f, l) || AnyOver(s, fs, LeftBy(s[f.from..f.to], f.to, l))
  {
    hide Added, Over, LeftBy;
    assert ([f] + fs)[1..] == fs;
  }

  lemma LastField(s: Str, p: nat, st: State)
    requires p <= |s| && Fresh(p, st) && AmpFrom(s, p) == |s|
    ensures var f, r := Span(p, |s|), Run(s, p, st);
            r.params == Added(s, f, LeftIn(st), st.params) && r.overrun == (st.overrun || Over(s, f, LeftIn(st)))
  {
    hide Run, Over, Added, Key, Commit, Passed, Step, LeftBy;
    PassField(s, p, |s|, st);
    CommitPassed(s, p, |s|, st);
    RunEnd(s, Passed(p, s[p..|s|], st));
  }

  lemma NextField(s: Str, p: nat, e: nat, st: State) returns (next: State)
    requires p <= e < |s| && Fresh(p, st) && e == AmpFrom(s, p)
    ensures var f, l := Span(p, e), LeftIn(st);
            && Run(s, p, st) == Run(s, e + 1, next) && Fresh(e + 1, next) && LeftIn(next) == LeftBy(s[p..e], e, l)
            && next.params == Added(s, f, l, st.params) && next.overrun == (st.overrun || Over(s, f, l))
  {
    hide Run, Over, Added, Key, Commit, Passed, LeftBy;
    PassField(s, p, e, st);
    CommitPassed(s, p, e, st);
    var u := Passed(p, s[p..e], st);
    RunOne(s, e, u);
    next := Step(s, e, u);
  }

  /** Any query string is read field by field: the value of a field with a key is its text behind the last '=' and as many
      bytes more as stand between its first and last '=' and in values without a key before it; the string is overrun
      exactly when that is more than there is. */
  lemma ReadsFields(s: Str, params: Params)
    ensures var b := Start(s, 0);
            var r := Run(s, b, Begin(b, params));
            && r.params == AddFields(s, Fields(s, b), NOTHING, params)
            && (r.overrun <==> AnyOver(s, Fields(s, b), NOTHING))
  {
    RunFields(s, Start(s, 0), Begin(Start(s, 0), params));
  }

  // ---- strings in which no value lacks its key ----

  ghost predicate Keyed(s: Str, fs: seq<Span>)
    requires forall f :: f in fs ==> f.from <= f.to <= |s|
  {
    forall f :: f in fs ==> var w := s[f.from..f.to]; Key(w) == [] ==> |Value(w)| + Surplus(w) == 0
  }

  /** Some field with a key has more bytes between its first and last '=' than follow it. */
  ghost predicate Crowded(s: Str, fs: seq<Span>)
    requires forall f :: f in fs ==> f.from <= f.to <= |s|
  {
    exists f :: f in fs && var w := s[f.from..f.to]; Key(w) != [] && Surplus(w) > |s| - f.to + 1
  }

  lemma {:induction false} KeyedOver(s: Str, fs: seq<Span>, l: Left)
    requires (forall f :: f in fs ==> f.from <= f.to <= |s|) && Keyed(s, fs) && l.bytes == 0
    ensures AnyOver(s, fs, l) <==> Crowded(s, fs)
    decreases |fs|
  {
    if fs != [] {
      var f := fs[0];
      var w := s[f.from..f.to];
      assert f in fs && forall g :: g in fs <==> g == f || g in fs[1..];
      hide Key, Value, Tail, NonEq, LastEq;
      KeyedOver(s, fs[1..], LeftBy(w, f.to, l));
      if !HasEq(w) { EmptyTail(w); }
    }
  }

  /** Then the string is overrun exactly when one of its fields is crowded. */
  lemma OverrunIff(s: Str, params: Params)
    requires Keyed(s, Fields(s, Start(s, 0)))
    ensures var b := Start(s, 0); Run(s, b, Begin(b, params)).overrun <==> Crowded(s, Fields(s, b))
  {
    ReadsFields(s, params);
    KeyedOver(s, Fields(s, Start(s, 0)), NOTHING);
  }

  /** A field with at most one '=' is read as its own key and its own value, and leaves nothing behind. */
  lemma OneEqual(s: Str, f: Span, l: Left, m: Params)
    requires f.from <= f.to <= |s| && EQUALS !in Tail(s[f.from..f.to]) && l.bytes == 0
    ensures var w := s[f.from..f.to];
            && !Over(s, f, l)
            && Added(s, f, l, m) == (if Key(w) == [] then m else m[Unescaped(Key(w)) := Unescaped(Tail(w))])
            && ((Key(w) == [] ==> Tail(w) == []) ==> LeftBy(w, f.to, l).bytes == 0)
  {
    hide Unescaped;
    var t := Tail(s[f.from..f.to]);
    NoEqual(t);
    assert t[..0] == [] && t[0..] == t;
    assert (s + [0])[f.to..f.to] == [];
    assert t + [] == t;
  }

  lemma {:induction false} NoEqual(t: Str)
    requires EQUALS !in t
    ensures LastEq(t) == 0
    decreases |t|
  {
    if t != [] {
      assert t[|t| - 1] in t;
      NoEqual(t[..|t| - 1]);
    }
  }

  /** The parameters that a query means: of each field with a key, the text before its '=' and the text behind it. */
  function Meant(s: Str, fs: seq<Span>, m: Params): Params
    requires forall f :: f in fs ==> f.from <= f.to <= |s|
  {
    if fs == [] then m
    else
      var w := s[fs[0].from..fs[0].to];
      Meant(s, fs[1..], if Key(w) == [] then m else m[Unescaped(Key(w)) := Unescaped(Tail(w))])
  }

  lemma {:induction false} AddedMeant(s: Str, fs: seq<Span>, l: Left, m: Params)
    requires forall f :: f in fs ==> f.from <= f.to <= |s| && EQUALS !in Tail(s[f.from..f.to])
    requires (forall f :: f in fs && Key(s[f.from..f.to]) == [] ==> Tail(s[f.from..f.to]) == []) && l.bytes == 0
    ensures AddFields(s, fs, l, m) == Meant(s, fs, m) && !AnyOver(s, fs, l)
  {
    hide Unescaped, Key, Tail, Added, LeftBy, Over;
    if fs != [] {
      OneEqual(s, fs[0], l, m);
      AddedMeant(s, fs[1..], LeftBy(s[fs[0].from..fs[0].to], fs[0].to, l), Added(s, fs[0], l, m));
    }
  }

  /** When every field has at most one '=' and no value lacks its key, parse_query_params reads what the query means. */
  method ParsePlain(s: Str, params: Params) returns (r: int, st: State)
    requires NoNul(s)
    requires forall f :: f in Fields(s, Start(s, 0)) ==> EQUALS !in Tail(s[f.from..f.to])
    requires forall f :: f in Fields(s, Start(s, 0)) && Key(s[f.from..f.to]) == [] ==> Tail(s[f.from..f.to]) == []
    ensures !st.overrun && st.params == Meant(s, Fields(s, Start(s, 0)), params)
  {
    hide Run, Meant, AddFields, AnyOver, Fields, Tail, Key;
    ReadsFields(s, params);
    AddedMeant(s, Fields(s, Start(s, 0)), NOTHING, params);
    r, st := Parse(s, params);
  }
}
