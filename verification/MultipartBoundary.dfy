/** The parser looks for a delimiter without a failure function: after a mismatch it starts again at the byte at
    hand. When that finds every delimiter, and what the data before it is. */
module MultipartBoundary {
  import opened MultipartSpec
  import opened MultipartChunks

  /** CRLF and the boundary, which ends a part (section 5.1.1 of RFC 2046). */
  function Delimiter(boundary: seq<Byte>): seq<Byte> { [CR, LF] + boundary }

  predicate OccursAt(p: seq<Byte>, w: seq<Byte>, m: nat) { m + |p| <= |w| && w[m..m + |p|] == p }

  ghost predicate Occurs(p: seq<Byte>, w: seq<Byte>) { exists m: nat :: OccursAt(p, w, m) }

  /** The text `w` ends with the first `n` bytes of `p`. */
  predicate EndsWith(p: seq<Byte>, w: seq<Byte>, n: nat) { n <= |w| && n <= |p| && w[|w| - n..] == p[..n] }

  /** How much of the delimiter has been matched. */
  function Matched(st: St): nat {
    match st.mode
    case AlmostBoundary => 1
    case Boundary => 2 + st.index
    case _ => 0
  }

  predicate InPart(boundary: seq<Byte>, st: St) {
    |boundary| > 0 && (st.mode.PartData? || st.mode.AlmostBoundary? || (st.mode.Boundary? && st.index < |boundary|))
  }

  /** Wherever the delimiter overlaps itself, it goes on the same way from both places, so that a mismatch
      at one is a mismatch at the other. */
  ghost predicate RestartSafe(p: seq<Byte>) {
    forall m, j :: 1 <= m < j < |p| && p[m..j] == p[..j - m] ==> p[j] == p[j - m]
  }

  lemma NoCrIsSafe(boundary: seq<Byte>)
    requires CR !in boundary
    ensures RestartSafe(Delimiter(boundary))
  {
    var p := Delimiter(boundary);
    forall m, j | 1 <= m < j < |p| ensures p[m..j] != p[..j - m] {
      assert p[m..j][0] == p[m] && p[..j - m][0] == CR;
      assert m >= 2 ==> p[m] == boundary[m - 2];
    }
  }

  /** One byte of part data. */
  lemma PartStep(boundary: seq<Byte>, r: Run, c: Byte)
    requires InPart(boundary, r.st) && (r.pend != [] ==> r.st.mode.PartData?)
    ensures Feed(boundary, r, c).Some?
    ensures var p, j, u := Delimiter(boundary), Matched(r.st), Feed(boundary, r, c).value;
            && (u.pend != [] ==> u.st.mode.PartData?)
            && if j + 1 == |p| && c == p[j] then u.st.mode.AlmostEnd? && u.out + u.pend == r.out + r.pend + [OnPartEnd]
               else if c == p[j] then
                 InPart(boundary, u.st) && Matched(u.st) == j + 1 && u.out + u.pend == r.out + r.pend
               else if c == CR then
                 InPart(boundary, u.st) && Matched(u.st) == 1 && u.out + u.pend == r.out + r.pend + Parts(p[..j])
               else
                 InPart(boundary, u.st) && Matched(u.st) == 0 && u.out + u.pend == r.out + r.pend + Parts(p[..j] + [c])
  {
    var p, j := Delimiter(boundary), Matched(r.st);
    assert r.st.mode.PartData? || r.pend == [];
    assert Parts([CR]) == [PartByte(CR)];
    assert j == 1 ==> p[..j] == [CR];
    assert r.st.mode.Boundary? ==> p[..j] == [CR, LF] + boundary[..r.st.index];
    assert Parts(p[..j] + [c]) == Parts(p[..j]) + [PartByte(c)];
    assert Parts([]) == [];
  }

  // ---- with a delimiter that is safe to restart, the first one is found ----

  /** The parser has matched as much of the delimiter as could still become one. */
  ghost predicate Longest(p: seq<Byte>, w: seq<Byte>, j: nat) {
    j < |p| && EndsWith(p, w, j) && forall n :: j < n <= |p| ==> !EndsWith(p, w, n)
  }

  lemma EndsMore(p: seq<Byte>, w: seq<Byte>, c: Byte, n: nat)
    requires n < |p|
    ensures EndsWith(p, w + [c], n + 1) <==> EndsWith(p, w, n) && p[n] == c
  {
    if n <= |w| {
      assert (w + [c])[|w| - n..] == w[|w| - n..] + [c];
      assert p[..n + 1] == p[..n] + [p[n]];
    }
  }

  /** Of a text that ends with `p[..j]`, a shorter such end is an overlap of `p` with itself. */
  lemma Overlap(p: seq<Byte>, w: seq<Byte>, j: nat, n: nat)
    requires EndsWith(p, w, j) && n <= j
    ensures EndsWith(p, w, n) <==> p[j - n..j] == p[..n]
  {
    assert w[|w| - n..] == w[|w| - j..][j - n..] == p[..j][j - n..] == p[j - n..j];
  }

  /** After a mismatch only the byte at hand can begin a delimiter. */
  lemma Mismatch(p: seq<Byte>, w: seq<Byte>, c: Byte, j: nat)
    requires |p| > 1 && p[0] == CR && RestartSafe(p) && Longest(p, w, j) && p[j] != c
    ensures Longest(p, w + [c], if c == CR then 1 else 0)
  {
    var k := if c == CR then 1 else 0;
    EndsMore(p, w, c, 0);
    forall n | k < n <= |p| ensures !EndsWith(p, w + [c], n) {
      EndsMore(p, w, c, n - 1);
      if 0 < n - 1 < j {
        Overlap(p, w, j, n - 1);
        assert j - (n - 1) >= 1 && j - (j - (n - 1)) == n - 1;
      }
    }
  }

  lemma Match(p: seq<Byte>, w: seq<Byte>, c: Byte, j: nat)
    requires Longest(p, w, j) && p[j] == c && j + 1 < |p|
    ensures Longest(p, w + [c], j + 1)
  {
    EndsMore(p, w, c, j);
    forall n | j + 1 < n <= |p| ensures !EndsWith(p, w + [c], n) { EndsMore(p, w, c, n - 1); }
  }

  lemma OccursEarlier(p: seq<Byte>, w: seq<Byte>, c: Byte)
    requires |p| > 0
    ensures Occurs(p, w + [c]) <==> Occurs(p, w) || EndsWith(p, w + [c], |p|)
  {
    var v := w + [c];
    if Occurs(p, v) {
      var m: nat :| OccursAt(p, v, m);
      if m + |p| <= |w| { assert w[m..m + |p|] == v[m..m + |p|]; assert OccursAt(p, w, m); }
    }
    if Occurs(p, w) {
      var m: nat :| OccursAt(p, w, m);
      assert v[m..m + |p|] == w[m..m + |p|];
      assert OccursAt(p, v, m);
    }
    if EndsWith(p, v, |p|) { assert OccursAt(p, v, |v| - |p|); }
  }

  lemma OccursLater(p: seq<Byte>, w: seq<Byte>, c: Byte, m: nat)
    requires OccursAt(p, w, m)
    ensures OccursAt(p, w + [c], m)
  {
    assert (w + [c])[m..m + |p|] == w[m..m + |p|];
  }

  /** The run over the data of a part, up to the delimiter. */
  ghost predicate Tracks(boundary: seq<Byte>, w: seq<Byte>, u: Run) {
    && InPart(boundary, u.st) && (u.pend != [] ==> u.st.mode.PartData?)
    && Longest(Delimiter(boundary), w, Matched(u.st))
    && u.out + u.pend == Parts(w[..|w| - Matched(u.st)])
  }

  lemma PartsJoin(a: seq<Byte>, b: seq<Byte>)
    ensures Parts(a + b) == Parts(a) + Parts(b)
  {
  }

  lemma TrackStep(boundary: seq<Byte>, w: seq<Byte>, r: Run, c: Byte)
    requires Tracks(boundary, w, r) && RestartSafe(Delimiter(boundary))
    ensures Feed(boundary, r, c).Some?
    ensures var p, u := Delimiter(boundary), Feed(boundary, r, c).value;
            if EndsWith(p, w + [c], |p|) then
              |w| + 1 >= |p| && u.st.mode.AlmostEnd? && u.out + u.pend == Parts((w + [c])[..|w| + 1 - |p|]) + [OnPartEnd]
            else Tracks(boundary, w + [c], u)
  {
    var p, j := Delimiter(boundary), Matched(r.st);
    PartStep(boundary, r, c);
    hide Feed, InPart;
    EndsMore(p, w, c, |p| - 1);
    if c == p[j] {
      assert (w + [c])[..|w| - j] == w[..|w| - j];
      if j + 1 < |p| { Match(p, w, c, j); }
    } else {
      Mismatch(p, w, c, j);
      hide Longest, EndsWith;
      Released(p, w, c, j);
    }
  }

  /** What was held back comes after what was handed over. */
  lemma Released(p: seq<Byte>, w: seq<Byte>, c: Byte, j: nat)
    requires EndsWith(p, w, j)
    ensures Parts(w[..|w| - j]) + Parts(p[..j]) == Parts((w + [c])[..|w|])
    ensures Parts(w[..|w| - j]) + Parts(p[..j] + [c]) == Parts((w + [c])[..|w| + 1])
  {
    var a := w[..|w| - j];
    assert a + p[..j] == w && a + (p[..j] + [c]) == w + [c];
    PartsJoin(a, p[..j]);
    PartsJoin(a, p[..j] + [c]);
    assert (w + [c])[..|w|] == w && (w + [c])[..|w| + 1] == w + [c];
  }

  /** The data before the first delimiter, all of it and nothing else, reaches the callback before on_part_data_end;
      without a delimiter there is no end, and only the bytes matched last are held back. */
  lemma {:induction false} PartDataExact(boundary: seq<Byte>, index: nat, w: seq<Byte>)
    requires |boundary| > 0 && RestartSafe(Delimiter(boundary))
    requires forall m: nat :: OccursAt(Delimiter(boundary), w, m) ==> m + |Delimiter(boundary)| == |w|
    ensures FeedAll(boundary, Run(St(PartData, index), [], []), w).Some?
    ensures var p, u := Delimiter(boundary), FeedAll(boundary, Run(St(PartData, index), [], []), w).value;
            if Occurs(p, w) then
              |w| >= |p| && u.st.mode.AlmostEnd? && u.out + u.pend == Parts(w[..|w| - |p|]) + [OnPartEnd]
            else Tracks(boundary, w, u)
    decreases |w|
  {
    var p, r := Delimiter(boundary), Run(St(PartData, index), [], []);
    if w == [] {
      forall n | 0 < n <= |p| ensures !EndsWith(p, w, n) {}
      assert !Occurs(p, w);
    } else {
      var s, c := w[..|w| - 1], w[|w| - 1];
      assert w == s + [c];
      forall m: nat ensures !OccursAt(p, s, m) {
        if OccursAt(p, s, m) { OccursLater(p, s, c, m); }
      }
      PartDataExact(boundary, index, s);
      hide Feed, Tracks;
      FeedAllLast(boundary, r, s, c);
      TrackStep(boundary, s, FeedAll(boundary, r, s).value, c);
      OccursEarlier(p, s, c);
    }
  }

  /** From its start a part is reported as its headers' end, then its data, then its end at the first delimiter. */
  lemma PartExact(boundary: seq<Byte>, r: Run, w: seq<Byte>)
    requires |boundary| > 0 && RestartSafe(Delimiter(boundary)) && r.st.mode.PartStart? && r.pend == [] && w != []
    requires forall m: nat :: OccursAt(Delimiter(boundary), w, m) ==> m + |Delimiter(boundary)| == |w|
    ensures FeedAll(boundary, r, w).Some?
    ensures var p, u := Delimiter(boundary), FeedAll(boundary, r, w).value;
            var before := r.out + [OnHeadersComplete];
            if Occurs(p, w) then
              |w| >= |p| && u.st.mode.AlmostEnd? && u.pend == [] && u.out == before + (Parts(w[..|w| - |p|]) + [OnPartEnd])
            else exists v: Run :: Tracks(boundary, w, v) && u == v.(out := before + v.out)
  {
    hide FeedAll, Occurs, OccursAt, RestartSafe, Tracks, Feed;
    var t := Run(St(PartData, r.st.index), [], []);
    PartDataExact(boundary, r.st.index, w);
    StartsData(boundary, r, w);
    FeedAllShift(boundary, t, r.out + [OnHeadersComplete], w);
    EndsEmpty(boundary, t, w);
    var u := FeedAll(boundary, t, w).value;
    assert u.out + [] == u.out;
  }

  /** The first byte of part data reports the end of the headers before anything else. */
  lemma StartsData(boundary: seq<Byte>, r: Run, w: seq<Byte>)
    requires |boundary| > 0 && r.st.mode.PartStart? && r.pend == [] && w != []
    ensures var t := Run(St(PartData, r.st.index), [], []);
            FeedAll(boundary, r, w) == FeedAll(boundary, t.(out := r.out + [OnHeadersComplete] + t.out), w)
  {
    var t := Run(St(PartData, r.st.index), r.out + [OnHeadersComplete], []);
    assert r.out + [OnHeadersComplete] + [] == t.out;
    assert Feed(boundary, r, w[0]) == Feed(boundary, t, w[0]);
  }

  /** At the end of a part nothing waits. */
  lemma EndsEmpty(boundary: seq<Byte>, r: Run, w: seq<Byte>)
    requires Ready(boundary, r.st) && FeedAll(boundary, r, w).Some? && r.pend == []
    ensures FeedAll(boundary, r, w).value.st.mode.AlmostEnd? ==> FeedAll(boundary, r, w).value.pend == []
  {
    WaitsAll(boundary, r, w);
  }

  // ---- with any other delimiter, some delimiter is overlooked ----

  /** Within `w`, the end of the part is noticed. */
  ghost predicate Notices(boundary: seq<Byte>, index: nat, w: seq<Byte>)
    requires |boundary| > 0
  {
    exists n: nat :: n <= |w| && Ended(boundary, index, w[..n])
  }

  predicate Ended(boundary: seq<Byte>, index: nat, w: seq<Byte>)
    requires |boundary| > 0
  {
    var u := FeedAll(boundary, Run(St(PartData, index), [], []), w);
    u.Some? && u.value.st.mode.AlmostEnd?
  }

  ghost predicate Going(boundary: seq<Byte>, r: Run, j: nat) {
    InPart(boundary, r.st) && (r.pend != [] ==> r.st.mode.PartData?) && Matched(r.st) == j
  }

  /** The parser follows a beginning of the delimiter byte by byte. */
  lemma {:induction false} Follows(boundary: seq<Byte>, index: nat, j: nat)
    requires |boundary| > 0 && j < |Delimiter(boundary)|
    ensures var u := FeedAll(boundary, Run(St(PartData, index), [], []), Delimiter(boundary)[..j]);
            u.Some? && Going(boundary, u.value, j)
    decreases j
  {
    if j > 0 {
      var p, r := Delimiter(boundary), Run(St(PartData, index), [], []);
      Follows(boundary, index, j - 1);
      assert p[..j] == p[..j - 1] + [p[j - 1]];
      PartStep(boundary, FeedAll(boundary, r, p[..j - 1]).value, p[j - 1]);
      hide Feed;
      FeedAllLast(boundary, r, p[..j - 1], p[j - 1]);
    }
  }

  /** Each byte adds at most one to what is matched. */
  lemma {:induction false} TooShort(boundary: seq<Byte>, r: Run, s: seq<Byte>)
    requires Going(boundary, r, Matched(r.st)) && Matched(r.st) + |s| < |Delimiter(boundary)|
    ensures FeedAll(boundary, r, s).Some? && InPart(boundary, FeedAll(boundary, r, s).value.st)
    decreases |s|
  {
    if s != [] {
      PartStep(boundary, r, s[0]);
      TooShort(boundary, Feed(boundary, r, s[0]).value, s[1..]);
    }
  }

  /** The delimiter right after a beginning of itself, from which it goes on differently, is overlooked. */
  lemma Overlooked(boundary: seq<Byte>, index: nat, m: nat, j: nat)
    requires |boundary| > 0 && 1 <= m < j < |Delimiter(boundary)|
    requires var p := Delimiter(boundary); p[m..j] == p[..j - m] && p[j] != p[j - m]
    ensures var p := Delimiter(boundary); Occurs(p, p[..m] + p) && !Notices(boundary, index, p[..m] + p)
  {
    var p := Delimiter(boundary);
    var w := p[..m] + p;
    assert w[m..m + |p|] == p && OccursAt(p, w, m);
    assert w[..j] == p[..m] + p[..j - m] == p[..j];
    assert w[j] == p[j - m];
    forall n: nat | n <= |w| ensures !Ended(boundary, index, w[..n]) {
      if n <= j {
        assert w[..n] == p[..n];
        Follows(boundary, index, n);
      } else {
        assert w[..n] == p[..j] + ([w[j]] + w[j + 1..n]);
        Astray(boundary, index, j, w[j], w[j + 1..n]);
      }
    }
  }

  /** After a mismatch, fewer bytes than a delimiter has do not end the part. */
  lemma Astray(boundary: seq<Byte>, index: nat, j: nat, c: Byte, s: seq<Byte>)
    requires |boundary| > 0 && j < |Delimiter(boundary)| && c != Delimiter(boundary)[j] && |s| + 1 < |Delimiter(boundary)|
    ensures !Ended(boundary, index, Delimiter(boundary)[..j] + ([c] + s))
  {
    var p, r := Delimiter(boundary), Run(St(PartData, index), [], []);
    Follows(boundary, index, j);
    PartStep(boundary, FeedAll(boundary, r, p[..j]).value, c);
    hide Feed, InPart;
    AfterMismatch(boundary, r, p[..j], c, s);
  }

  lemma AfterMismatch(boundary: seq<Byte>, r: Run, a: seq<Byte>, c: Byte, s: seq<Byte>)
    requires Ready(boundary, r.st) && FeedAll(boundary, r, a).Some?
    requires var u := FeedAll(boundary, r, a).value;
             Feed(boundary, u, c).Some? && Going(boundary, Feed(boundary, u, c).value, Matched(Feed(boundary, u, c).value.st))
             && Matched(Feed(boundary, u, c).value.st) + |s| < |Delimiter(boundary)|
    ensures var t := FeedAll(boundary, r, a + ([c] + s)); t.Some? && !t.value.st.mode.AlmostEnd?
  {
    FeedAllAppend(boundary, r, a, [c] + s);
    assert ([c] + s)[1..] == s;
    TooShort(boundary, Feed(boundary, FeedAll(boundary, r, a).value, c).value, s);
  }

  /** Every delimiter is noticed exactly when the delimiter is safe to restart. */
  lemma NoticesIff(boundary: seq<Byte>, index: nat)
    requires |boundary| > 0
    ensures RestartSafe(Delimiter(boundary)) <==>
              forall w :: Occurs(Delimiter(boundary), w) ==> Notices(boundary, index, w)
  {
    var p := Delimiter(boundary);
    if RestartSafe(p) {
      forall w | Occurs(p, w) ensures Notices(boundary, index, w) {
        var m := FirstOccurrence(p, w);
        var v := w[..m + |p|];
        assert v[m..m + |p|] == w[m..m + |p|] && OccursAt(p, v, m);
        forall k: nat | OccursAt(p, v, k) ensures k == m {
          assert v[k..k + |p|] == w[k..k + |p|];
          assert OccursAt(p, w, k);
        }
        PartDataExact(boundary, index, v);
        assert Ended(boundary, index, v);
      }
    } else {
      var m, j :| 1 <= m < j < |p| && p[m..j] == p[..j - m] && p[j] != p[j - m];
      Overlooked(boundary, index, m, j);
    }
  }

  lemma FirstOccurrence(p: seq<Byte>, w: seq<Byte>) returns (m: nat)
    requires Occurs(p, w)
    ensures OccursAt(p, w, m) && forall k: nat :: OccursAt(p, w, k) ==> m <= k
  {
    m := 0;
    while !OccursAt(p, w, m)
      invariant forall k: nat :: OccursAt(p, w, k) ==> m <= k
      decreases |w| - m
    {
      var k: nat :| OccursAt(p, w, k);
      m := m + 1;
    }
  }
}
