/** Query strings of http/http_content.cpp: written from a map, and read back by one pass over the characters. */
module Query {
  import opened Url

  const AMP: Byte := 38
  const EQUALS: Byte := 61
  const MARK: Byte := 63  // '?'

  type Params = map<Str, Str>
  type Pair = (Str, Str)

  function Field(p: Pair): Str { Escaped(p.0, []) + [EQUALS] + Escaped(p.1, []) }

  /** The fields with a '&' between them. */
  function Joined(pairs: seq<Pair>): Str {
    if pairs == [] then []
    else if |pairs| == 1 then Field(pairs[0])
    else Field(pairs[0]) + [AMP] + Joined(pairs[1..])
  }

  lemma {:induction false} JoinedMore(pairs: seq<Pair>, p: Pair)
    ensures Joined(pairs + [p]) == Joined(pairs) + (if pairs == [] then [] else [AMP]) + Field(p)
  {
    if pairs == [] {
      assert pairs + [p] == [p];
      assert [] + [] + Field(p) == Field(p);
    } else {
      JoinedMore(pairs[1..], p);
      assert (pairs + [p])[1..] == pairs[1..] + [p];
      var f := Field(pairs[0]) + [AMP];
      if |pairs| == 1 {
        assert Joined(pairs[1..] + [p]) == Field(p);
      } else {
        Regroup(f, Joined(pairs[1..]) + [AMP], Field(p));
        Regroup(f, Joined(pairs[1..]), [AMP]);
      }
    }
  }

  lemma FieldAt(front: Str, k: Str, v: Str)
    ensures front + k + [EQUALS] + v == front + (k + [EQUALS] + v)
  {
  }

  /** dump_query_params, over the entries of the map in the order in which it gives them. */
  method Dump(pairs: seq<Pair>) returns (s: Str)
    ensures s == Joined(pairs)
  {
    s := [];
    for i := 0 to |pairs|
      invariant s == Joined(pairs[..i]) && (s == [] <==> i == 0)
    {
      hide Joined, Escaped;
      JoinedMore(pairs[..i], pairs[i]);
      assert pairs[..i] + [pairs[i]] == pairs[..i + 1];
      var was := s;
      if |s| != 0 { s := s + [AMP]; }
      ghost var front := s;
      var k := Escape(pairs[i].0, []);
      s := s + k;
      s := s + [EQUALS];
      var v := Escape(pairs[i].1, []);
      s := s + v;
      FieldAt(front, k, v);
      assert front == was + (if i == 0 then [] else [AMP]);
    }
    assert pairs[..|pairs|] == pairs;
  }

  /** The variables of parse_query_params; `value` is -1 for NULL, and `overrun` tells that a value was read past the
      end of the string. */
  datatype State = State(inValue: bool, key: nat, keyLen: nat, value: int, valueLen: nat, params: Params, overrun: bool)

  /** The bytes from `i` on, with the NUL that ends the string. */
  predicate Readable(s: Str, i: int, n: nat) { n == 0 || (0 <= i && i + n <= |s| + 1) }

  function Read(s: Str, i: int, n: nat): Str
    requires Readable(s, i, n)
  {
    if n == 0 then [] else (s + [0])[i..i + n]
  }

  /** A key that is not empty gets its value. */
  function Commit(s: Str, st: State): State {
    if st.keyLen == 0 then st
    else if !Readable(s, st.key, st.keyLen) || !Readable(s, st.value, st.valueLen) then st.(keyLen := 0, valueLen := 0, overrun := true)
    else st.(keyLen := 0, valueLen := 0,
             params := st.params[Unescaped(Read(s, st.key, st.keyLen)) := Unescaped(Read(s, st.value, st.valueLen))])
  }

  function Step(s: Str, p: nat, st: State): State
    requires p < |s|
  {
    if s[p] == AMP then Commit(s, st).(inValue := false, key := p + 1)
    else if s[p] == EQUALS then st.(inValue := true, value := p + 1)
    else if st.inValue then st.(valueLen := st.valueLen + 1)
    else st.(keyLen := st.keyLen + 1)
  }

  function Run(s: Str, p: nat, st: State): State
    requires p <= |s|
    decreases |s| - p
  {
    if p == |s| then Commit(s, st) else Run(s, p + 1, Step(s, p, st))
  }

  function Begin(key: nat, params: Params): State { State(false, key, 0, -1, 0, params, false) }

  /** Where the parameters begin: behind the first '?', if there is one. */
  function Start(s: Str, p: nat): (r: nat)
    requires p <= |s|
    ensures r <= |s|
    decreases |s| - p
  {
    if p == |s| then 0 else if s[p] == MARK then p + 1 else Start(s, p + 1)
  }

  /** parse_query_params of a string without NUL; the result is -1 when no parameter was read. */
  method Parse(s: Str, params: Params) returns (r: int, st: State)
    requires NoNul(s)
    ensures st == Run(s, Start(s, 0), Begin(Start(s, 0), params)) && r == if st.params == map[] then -1 else 0
  {
    var p := 0;
    while p < |s| && s[p] != MARK
      invariant p <= |s| && Start(s, 0) == Start(s, p)
    {
      p := p + 1;
    }
    p := if p < |s| then p + 1 else 0;
    st := Begin(p, params);
    while p < |s|
      invariant p <= |s| && Run(s, Start(s, 0), Begin(Start(s, 0), params)) == Run(s, p, st)
    {
      if s[p] == AMP {
        st := Commit(s, st);
        st := st.(inValue := false, key := p + 1);
      } else if s[p] == EQUALS {
        st := st.(inValue := true, value := p + 1);
      } else if st.inValue {
        st := st.(valueLen := st.valueLen + 1);
      } else {
        st := st.(keyLen := st.keyLen + 1);
      }
      p := p + 1;
    }
    st := Commit(s, st);
    r := if |st.params| == 0 then -1 else 0;
  }

  /** A stretch of a key, or of a value, without '&' and '='. */
  predicate Flat(s: Str, p: nat, n: nat) { p + n <= |s| && forall i :: p <= i < p + n ==> s[i] != AMP && s[i] != EQUALS }

  lemma {:induction false} RunFlat(s: Str, p: nat, n: nat, st: State)
    requires Flat(s, p, n)
    ensures Run(s, p, st) == Run(s, p + n, if st.inValue then st.(valueLen := st.valueLen + n) else st.(keyLen := st.keyLen + n))
    decreases n
  {
    if n > 0 { RunFlat(s, p + 1, n - 1, Step(s, p, st)); }
  }

  lemma EscapedFlat(k: Str, s: Str, p: nat)
    requires At(s, p, Escaped(k, []))
    ensures Flat(s, p, |Escaped(k, [])|)
  {
    EscapedClean(k);
    var e := Escaped(k, []);
    forall i | p <= i < p + |e| ensures s[i] != AMP && s[i] != EQUALS {
      assert s[i] == s[p..p + |e|][i - p] == e[i - p] && e[i - p] in e;
    }
  }

  /** The variables after the field `f`, which began at `p`. */
  function Seen(p: nat, f: Pair, st: State): State {
    var k, v := Escaped(f.0, []), Escaped(f.1, []);
    st.(inValue := true, keyLen := |k|, value := p + |k| + 1, valueLen := |v|)
  }

  predicate At(s: Str, p: nat, w: Str) { p + |w| <= |s| && s[p..p + |w|] == w }

  lemma RunField(s: Str, p: nat, f: Pair, st: State)
    requires At(s, p, Field(f)) && st == State(false, p, 0, st.value, 0, st.params, false)
    ensures Run(s, p, st) == Run(s, p + |Field(f)|, Seen(p, f, st))
  {
    hide Escaped, Run, Commit;
    var k, v := Escaped(f.0, []), Escaped(f.1, []);
    Parts(s, p, k, v);
    EscapedFlat(f.0, s, p);
    EscapedFlat(f.1, s, p + |k| + 1);
    RunFlat(s, p, |k|, st);
    var st1 := st.(keyLen := |k|);
    RunOne(s, p + |k|, st1);
    RunFlat(s, p + |k| + 1, |v|, Step(s, p + |k|, st1));
  }

  lemma RunOne(s: Str, p: nat, st: State)
    requires p < |s|
    ensures Run(s, p, st) == Run(s, p + 1, Step(s, p, st))
  {
  }

  /** One field is read as its key and its value. */
  lemma CommitField(s: Str, p: nat, f: Pair, st: State)
    requires NoNul(f.0) && NoNul(f.1) && f.0 != []
    requires At(s, p, Field(f)) && st == State(false, p, 0, st.value, 0, st.params, false)
    ensures Commit(s, Seen(p, f, st)) == Seen(p, f, st).(keyLen := 0, valueLen := 0, params := st.params[f.0 := f.1])
  {
    hide Escaped, Unescaped, Field, At, Readable, Read, NoNul;
    ReadField(s, p, f);
    EscapedClean(f.0);
    UnescapeEscaped(f.0, []);
    UnescapeEscaped(f.1, []);
  }

  lemma ReadField(s: Str, p: nat, f: Pair)
    requires At(s, p, Field(f))
    ensures var k, v := Escaped(f.0, []), Escaped(f.1, []);
            var q := p + |k| + 1;
            && Readable(s, p, |k|) && Read(s, p, |k|) == k
            && Readable(s, q, |v|) && Read(s, q, |v|) == v
  {
    hide Escaped, At, Readable, Read;
    var k, v := Escaped(f.0, []), Escaped(f.1, []);
    Parts(s, p, k, v);
    ReadPart(s, p, k);
    ReadPart(s, p + |k| + 1, v);
  }

  lemma Parts(s: Str, p: nat, k: Str, v: Str)
    requires At(s, p, k + [EQUALS] + v)
    ensures At(s, p, k) && s[p + |k|] == EQUALS && At(s, p + |k| + 1, v)
  {
    var w, front, back := k + [EQUALS] + v, s[..p], s[p + |k + [EQUALS] + v|..];
    assert s == front + w + back;
    Inside(s, front, k, [EQUALS] + v + back);
    Inside(s, front + k + [EQUALS], v, back);
  }

  lemma Inside(s: Str, front: Str, w: Str, back: Str)
    requires s == front + w + back
    ensures At(s, |front|, w)
  {
  }

  lemma ReadPart(s: Str, p: nat, k: Str)
    requires At(s, p, k)
    ensures Readable(s, p, |k|) && Read(s, p, |k|) == k
  {
    if k != [] { assert (s + [0])[p..p + |k|] == s[p..p + |k|]; }
  }

  function AddAll(pairs: seq<Pair>, m: Params): Params {
    if pairs == [] then m else AddAll(pairs[1..], m[pairs[0].0 := pairs[0].1])
  }

  ghost predicate Clean(pairs: seq<Pair>) { forall f :: f in pairs ==> f.0 != [] && NoNul(f.0) && NoNul(f.1) }

  /** The whole of a dumped query is read as its pairs, in order. */
  lemma {:induction false} RunJoined(s: Str, p: nat, pairs: seq<Pair>, st: State)
    requires Clean(pairs) && pairs != [] && p <= |s| && s[p..] == Joined(pairs)
    requires st == State(false, p, 0, st.value, 0, st.params, false)
    ensures var e := Run(s, p, st); e.params == AddAll(pairs, st.params) && !e.overrun
    decreases |pairs|
  {
    hide Escaped, Commit, Run, Field;
    var f := pairs[0];
    var w := Field(f);
    assert f in pairs;
    if |pairs| == 1 {
      Inside(s, s[..p], w, []);
      assert s == s[..p] + w + [] && p + |w| == |s|;
      RunField(s, p, f, st);
      CommitField(s, p, f, st);
      RunEnd(s, Seen(p, f, st));
      assert pairs[1..] == [];
    } else {
      var q, rest := p + |w| + 1, Joined(pairs[1..]);
      assert s == s[..p] + w + ([AMP] + rest);
      Inside(s, s[..p], w, [AMP] + rest);
      assert s == (s[..p] + w) + [AMP] + rest;
      Inside(s, s[..p] + w, [AMP], rest);
      assert s[q - 1] == AMP && s[q..] == rest;
      RunField(s, p, f, st);
      CommitField(s, p, f, st);
      RunOne(s, q - 1, Seen(p, f, st));
      var next := Step(s, q - 1, Seen(p, f, st));
      assert Clean(pairs[1..]);
      RunJoined(s, q, pairs[1..], next);
    }
  }

  lemma RunEnd(s: Str, st: State)
    ensures Run(s, |s|, st) == Commit(s, st)
  {
  }

  /** A dumped query holds no NUL and no '?'. */
  lemma {:induction false} JoinedPlain(pairs: seq<Pair>)
    ensures NoNul(Joined(pairs)) && MARK !in Joined(pairs)
  {
    hide Escaped;
    if pairs != [] {
      FieldPlain(pairs[0]);
      JoinedPlain(pairs[1..]);
    }
  }

  lemma FieldPlain(f: Pair)
    ensures NoNul(Field(f)) && MARK !in Field(f)
  {
    hide Escaped;
    EscapedClean(f.0);
    EscapedClean(f.1);
  }

  lemma {:induction false} NoMark(s: Str, p: nat)
    requires p <= |s| && MARK !in s
    ensures Start(s, p) == 0
    decreases |s| - p
  {
    if p < |s| { NoMark(s, p + 1); }
  }

  /** `pairs` lists the entries of `m`, each once, in some order. */
  ghost predicate Lists(pairs: seq<Pair>, m: Params) {
    && (forall i, j :: 0 <= i < j < |pairs| ==> pairs[i].0 != pairs[j].0)
    && (forall f :: f in pairs ==> f.0 in m && m[f.0] == f.1)
    && (forall k :: k in m ==> exists i :: 0 <= i < |pairs| && pairs[i].0 == k)
  }

  lemma {:induction false} AddAllAt(pairs: seq<Pair>, m: Params, k: Str)
    requires forall i, j :: 0 <= i < j < |pairs| ==> pairs[i].0 != pairs[j].0
    ensures k in AddAll(pairs, m) <==> k in m || exists i :: 0 <= i < |pairs| && pairs[i].0 == k
    ensures forall i :: 0 <= i < |pairs| && pairs[i].0 == k ==> AddAll(pairs, m)[k] == pairs[i].1
    ensures k in m && (forall i :: 0 <= i < |pairs| ==> pairs[i].0 != k) ==> AddAll(pairs, m)[k] == m[k]
  {
    if pairs != [] {
      AddAllAt(pairs[1..], m[pairs[0].0 := pairs[0].1], k);
      assert forall i :: 0 < i < |pairs| ==> pairs[i] == pairs[1..][i - 1];
      if pairs[0].0 == k {
        assert forall i :: 0 <= i < |pairs[1..]| ==> pairs[1..][i] == pairs[i + 1] && pairs[0].0 != pairs[i + 1].0;
      }
    }
  }

  lemma AddAllIs(pairs: seq<Pair>, m: Params)
    requires Lists(pairs, m)
    ensures AddAll(pairs, map[]) == m
  {
    forall k ensures k in AddAll(pairs, map[]) <==> k in m { AddAllAt(pairs, map[], k); }
    forall k | k in m ensures AddAll(pairs, map[])[k] == m[k] { AddAllAt(pairs, map[], k); }
  }

  /** A map without empty keys and without NUL is read back from what was dumped of it, in whatever order. */
  method DumpThenParse(pairs: seq<Pair>, ghost m: Params) returns (r: int, st: State)
    requires Lists(pairs, m) && Clean(pairs)
    ensures st.params == m && !st.overrun && r == if m == map[] then -1 else 0
  {
    hide Run, AddAll;
    var s := Dump(pairs);
    JoinedPlain(pairs);
    NoMark(s, 0);
    AddAllIs(pairs, m);
    r, st := Parse(s, map[]);
    if pairs == [] {
      AddNone(pairs, map[]);
      RunEnd(s, Begin(0, map[]));
    } else {
      assert s[0..] == s;
      RunJoined(s, 0, pairs, Begin(0, map[]));
    }
  }

  lemma AddNone(pairs: seq<Pair>, m: Params)
    requires pairs == []
    ensures AddAll(pairs, m) == m
  {
  }

  /** The bytes of a value without a key count for the value that follows: it is read past the end exactly when there is
      more than one. */
  lemma KeylessCarries(v: Str, k: Str, w: Str)
    requires k != []
    requires forall c :: c in v || c in k || c in w ==> c != AMP && c != EQUALS
    ensures Run([EQUALS] + v + [AMP] + k + [EQUALS] + w, 0, Begin(0, map[])).overrun <==> |v| > 1
  {
    hide Run, Commit;
    var s := [EQUALS] + v + [AMP] + k + [EQUALS] + w;
    FlatPart(s, [EQUALS], v, [AMP] + k + [EQUALS] + w);
    FlatPart(s, [EQUALS] + v + [AMP], k, [EQUALS] + w);
    FlatPart(s, [EQUALS] + v + [AMP] + k + [EQUALS], w, []);
    RunKeyless(s, |v|, |k|, |w|);
  }

  lemma RunKeyless(s: Str, a: nat, b: nat, c: nat)
    requires |s| == a + b + c + 3 && b > 0
    requires s[0] == EQUALS && Flat(s, 1, a) && s[1 + a] == AMP && Flat(s, a + 2, b) && s[a + 2 + b] == EQUALS && Flat(s, a + 2 + b + 1, c)
    ensures Run(s, 0, Begin(0, map[])).overrun <==> a > 1
  {
    hide Run, Commit, Flat;
    var st := Begin(0, map[]);
    RunOne(s, 0, st);
    st := st.(inValue := true, value := 1);
    RunFlat(s, 1, a, st);
    st := st.(valueLen := a);
    RunOne(s, 1 + a, st);
    NoKey(s, st);
    st := st.(inValue := false, key := a + 2);
    RunFlat(s, a + 2, b, st);
    st := st.(keyLen := b);
    RunOne(s, a + 2 + b, st);
    st := st.(inValue := true, value := a + 2 + b + 1);
    RunFlat(s, a + 2 + b + 1, c, st);
    st := st.(valueLen := a + c);
    RunEnd(s, st);
    CommitOverruns(s, st);
  }

  lemma NoKey(s: Str, st: State)
    requires st.keyLen == 0
    ensures Commit(s, st) == st
  {
  }

  lemma FlatPart(s: Str, front: Str, w: Str, back: Str)
    requires s == front + w + back && forall c :: c in w ==> c != AMP && c != EQUALS
    ensures Flat(s, |front|, |w|)
  {
    Inside(s, front, w, back);
    FlatAt(s, |front|, w);
  }

  lemma FlatAt(s: Str, p: nat, w: Str)
    requires At(s, p, w) && forall c :: c in w ==> c != AMP && c != EQUALS
    ensures Flat(s, p, |w|)
  {
    forall i | p <= i < p + |w| ensures s[i] != AMP && s[i] != EQUALS {
      assert s[i] == s[p..p + |w|][i - p] == w[i - p] && w[i - p] in w;
    }
  }

  lemma CommitOverruns(s: Str, st: State)
    requires st.keyLen > 0 && Readable(s, st.key, st.keyLen)
    ensures Commit(s, st).overrun <==> st.overrun || !Readable(s, st.value, st.valueLen)
  {
  }
}
