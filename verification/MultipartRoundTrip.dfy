/** Reading back a printed form gives the form. */
module MultipartRoundTrip {
  import opened MultipartSpec
  import opened MultipartBoundary
  import opened MultipartChunks
  import opened MultipartForm

  // ---- what the parser reports of the pieces of a printed form ----

  function Fields(s: Str): seq<Out> { seq(|s|, i requires 0 <= i < |s| => FieldByte(s[i])) }

  function Values(s: Str): seq<Out> { seq(|s|, i requires 0 <= i < |s| => ValueByte(s[i])) }

  /** `s` takes the run from `r` to `u`. */
  ghost predicate Takes(boundary: Str, r: Run, s: Str, u: Run) {
    Ready(boundary, r.st) && FeedAll(boundary, r, s) == Some(u)
  }

  lemma Then(boundary: Str, r: Run, a: Str, u: Run, b: Str, v: Run)
    requires Takes(boundary, r, a, u) && Takes(boundary, u, b, v)
    ensures Takes(boundary, r, a + b, v)
  {
    FeedAllAppend(boundary, r, a, b);
  }

  lemma OneByte(boundary: Str, r: Run, c: Byte)
    requires Ready(boundary, r.st) && Feed(boundary, r, c).Some?
    ensures Takes(boundary, r, [c], Feed(boundary, r, c).value)
  {
    FeedReady(boundary, r, c);
    assert [c][1..] == [];
  }

  lemma TwoBytes(boundary: Str, r: Run, c: Byte, d: Byte)
    requires Ready(boundary, r.st) && Feed(boundary, r, c).Some?
    requires Ready(boundary, Feed(boundary, r, c).value.st) && Feed(boundary, Feed(boundary, r, c).value, d).Some?
    ensures Takes(boundary, r, [c, d], Feed(boundary, Feed(boundary, r, c).value, d).value)
  {
    OneByte(boundary, r, c);
    OneByte(boundary, Feed(boundary, r, c).value, d);
    Then(boundary, r, [c], Feed(boundary, r, c).value, [d], Feed(boundary, Feed(boundary, r, c).value, d).value);
    assert [c] + [d] == [c, d];
  }

  /** The first boundary of a body. */
  lemma {:induction false} FirstBoundary(boundary: Str, n: nat)
    requires |boundary| > 0 && n <= |boundary|
    ensures Takes(boundary, Run(St(Start, 0), [], []), boundary[..n], Run(if n == 0 then St(Start, 0) else St(StartBoundary, n), [], []))
  {
    var r := Run(St(Start, 0), [], []);
    if n > 0 {
      FirstBoundary(boundary, n - 1);
      var u := Run(if n == 1 then St(Start, 0) else St(StartBoundary, n - 1), [], []);
      OneByte(boundary, u, boundary[n - 1]);
      Then(boundary, r, boundary[..n - 1], u, [boundary[n - 1]], Run(St(StartBoundary, n), [], []));
      assert boundary[..n] == boundary[..n - 1] + [boundary[n - 1]];
    }
  }

  /** The name of a header, up to the colon. */
  lemma {:induction false} NameFeeds(boundary: Str, r: Run, name: Str)
    requires |boundary| > 0 && r.st.mode.FieldStart? && r.pend == [] && name != [] && forall c :: c in name ==> FieldChar(c)
    ensures Takes(boundary, r, name, Run(St(Field, r.st.index), r.out, Fields(name)))
    decreases |name|
  {
    var s, c := name[..|name| - 1], name[|name| - 1];
    var v := Run(St(Field, r.st.index), r.out, Fields(name));
    assert name == s + [c];
    assert Fields(name) == Fields(s) + [FieldByte(c)];
    hide Takes, FieldChar, Fields;
    assert c in name && forall d :: d in s ==> d in name;
    if s == [] {
      NoFields();
      NameByte(boundary, r, c);
    } else {
      NameFeeds(boundary, r, s);
      var u := Run(St(Field, r.st.index), r.out, Fields(s));
      NameByte(boundary, u, c);
      Then(boundary, r, s, u, [c], v);
    }
  }

  lemma NoFields()
    ensures Fields([]) == [] && Values([]) == []
  {
  }

  lemma NameByte(boundary: Str, r: Run, c: Byte)
    requires |boundary| > 0 && FieldChar(c) && (r.st.mode.Field? || r.st.mode.FieldStart?)
    ensures Takes(boundary, r, [c], Run(St(Field, r.st.index), r.out, r.pend + [FieldByte(c)]))
  {
    OneByte(boundary, r, c);
  }

  lemma ValueByteFeeds(boundary: Str, r: Run, c: Byte)
    requires |boundary| > 0 && c != CR && (r.st.mode.Value? || (r.st.mode.ValueStart? && c != SPACE))
    ensures Takes(boundary, r, [c], Run(St(Value, r.st.index), r.out, r.pend + [ValueByte(c)]))
  {
    OneByte(boundary, r, c);
  }

  /** The value of a header, up to the CR. */
  lemma {:induction false} ValueFeeds(boundary: Str, r: Run, value: Str)
    requires |boundary| > 0 && r.st.mode.ValueStart? && r.pend == [] && value != [] && value[0] != SPACE && CR !in value
    ensures Takes(boundary, r, value, Run(St(Value, r.st.index), r.out, Values(value)))
    decreases |value|
  {
    var s, c := value[..|value| - 1], value[|value| - 1];
    var v := Run(St(Value, r.st.index), r.out, Values(value));
    assert value == s + [c];
    assert Values(value) == Values(s) + [ValueByte(c)];
    hide Takes, Values;
    if s == [] {
      NoFields();
      ValueByteFeeds(boundary, r, c);
    } else {
      ValueFeeds(boundary, r, s);
      var u := Run(St(Value, r.st.index), r.out, Values(s));
      ValueByteFeeds(boundary, u, c);
      Then(boundary, r, s, u, [c], v);
    }
  }

  predicate GoodName(name: Str) { name != [] && forall c :: c in name ==> FieldChar(c) }

  predicate GoodValue(value: Str) { value != [] && value[0] != SPACE && CR !in value }

  function HeaderOut(name: Str, value: Str): seq<Out> { Fields(name) + [OnName] + Values(value) }

  /** A header line and its end. */
  lemma HeaderFeeds(boundary: Str, r: Run, name: Str, value: Str)
    requires |boundary| > 0 && r.st.mode.FieldStart? && r.pend == [] && GoodName(name) && GoodValue(value)
    ensures Takes(boundary, r, HeaderLine(name, value) + CRLF, Run(r.st, r.out + HeaderOut(name, value), []))
  {
    var i := r.st.index;
    var u1 := Run(St(Field, i), r.out, Fields(name));
    var u2 := Run(St(ValueStart, i), r.out + Fields(name) + [OnName], []);
    var u3 := Run(St(Value, i), u2.out, Values(value));
    var u4 := Run(St(FieldStart, i), u2.out + Values(value), []);
    NameFeeds(boundary, r, name);
    TwoBytes(boundary, u1, COLON, SPACE);
    Then(boundary, r, name, u1, [COLON, SPACE], u2);
    ValueFeeds(boundary, u2, value);
    Then(boundary, r, name + [COLON, SPACE], u2, value, u3);
    TwoBytes(boundary, u3, CR, LF);
    Then(boundary, r, HeaderLine(name, value), u3, CRLF, u4);
    assert u4.out == r.out + HeaderOut(name, value);
  }

  // ---- part data ----

  /** A delimiter without CR in its boundary does not occur before the end of contents that do not hold it. */
  lemma NotEarlier(boundary: Str, content: Str, m: nat)
    requires |boundary| > 0 && CR !in boundary && !Occurs(Delimiter(boundary), content) && m < |content|
    ensures !OccursAt(Delimiter(boundary), content + Delimiter(boundary), m)
  {
    var p := Delimiter(boundary);
    var w := content + p;
    if m + |p| <= |content| {
      assert !OccursAt(p, content, m);
      assert content[m..m + |p|] == w[m..m + |p|];
    } else {
      var k := |content| - m;
      assert w[m + k] == CR;
      assert p[k] == if k == 1 then LF else boundary[k - 2];
      assert m + |p| <= |w| ==> w[m..m + |p|][k] != p[k];
    }
  }

  lemma DelimiterAtEnd(boundary: Str, content: Str)
    requires |boundary| > 0 && CR !in boundary && !Occurs(Delimiter(boundary), content)
    ensures var p, w := Delimiter(boundary), content + Delimiter(boundary);
            Occurs(p, w) && (forall m: nat :: OccursAt(p, w, m) ==> m + |p| == |w|) && w[..|w| - |p|] == content
  {
    var p, w := Delimiter(boundary), content + Delimiter(boundary);
    assert w[|content|..|content| + |p|] == p && OccursAt(p, w, |content|);
    forall m: nat | m < |content| ensures !OccursAt(p, w, m) { NotEarlier(boundary, content, m); }
  }

  /** The contents of a part and the delimiter behind them. */
  lemma DataFeeds(boundary: Str, r: Run, content: Str)
    requires |boundary| > 0 && CR !in boundary && !Occurs(Delimiter(boundary), content)
    requires r.st.mode.PartStart? && r.pend == []
    ensures Ready(boundary, r.st) && FeedAll(boundary, r, content + Delimiter(boundary)).Some?
    ensures var u := FeedAll(boundary, r, content + Delimiter(boundary)).value;
            u.st.mode.AlmostEnd? && u.pend == [] && u.out == r.out + [OnHeadersComplete] + (Parts(content) + [OnPartEnd])
  {
    hide FeedAll, Occurs, OccursAt, RestartSafe, Tracks;
    NoCrIsSafe(boundary);
    DelimiterAtEnd(boundary, content);
    PartExact(boundary, r, content + Delimiter(boundary));
  }

  // ---- a whole body ----

  /** What the parser reports of one part. */
  function PartOut(e: Entry, w: World): seq<Out> {
    var t := TypeOf(e.data.filename, w);
    [OnPartBegin] + HeaderOut(DISPOSITION, Disposition(e)) + (if t == [] then [] else HeaderOut(TYPE, t))
    + [OnHeadersComplete] + (Parts(Loaded(e.data, w).content) + [OnPartEnd])
  }

  function BodyOut(form: seq<Entry>, w: World): seq<Out> {
    if form == [] then [OnBodyEnd] else PartOut(form[0], w) + BodyOut(form[1..], w)
  }

  /** A printed form after its first boundary. */
  function Tail(form: seq<Entry>, boundary: Str, w: World): Str {
    if form == [] then [HYPHEN, HYPHEN] + CRLF
    else CRLF + (Headers(form[0], w) + CRLF) + CRLF + (Loaded(form[0].data, w).content + Delimiter(boundary)) + Tail(form[1..], boundary, w)
  }

  lemma {:induction false} DumpedTail(form: seq<Entry>, boundary: Str, w: World)
    ensures Dumped(form, boundary, w) == boundary + Tail(form, boundary, w)
    decreases |form|
  {
    if form != [] {
      DumpedTail(form[1..], boundary, w);
      Regrouped(boundary, Headers(form[0], w), Loaded(form[0].data, w).content, Tail(form[1..], boundary, w));
    }
  }

  lemma Regrouped(b: Str, h: Str, c: Str, tail: Str)
    ensures (b + CRLF + h + CRLF + CRLF + c + CRLF) + (b + tail) == b + (CRLF + (h + CRLF) + CRLF + (c + Delimiter(b)) + tail)
  {
    assert Delimiter(b) == CRLF + b;
    hide CRLF, Delimiter;
  }

  /** What a form needs to survive: a name, and no byte that the reader gives a meaning of its own. */
  ghost predicate Good(e: Entry, boundary: Str, w: World) {
    && e.name != [] && Plain(e.name) && |e.name| <= 246
    && Plain(e.data.filename) && SLASH !in e.data.filename && |e.data.filename| <= 242
    && !Occurs(Delimiter(boundary), Loaded(e.data, w).content)
  }

  predicate Plain(s: Str) { SEMICOLON !in s && EQUALS !in s && CR !in s && 0 !in s }

  ghost predicate GoodWorld(w: World) { forall s :: w.mime(s) == [] || GoodValue(w.mime(s)) }

  /** The parameters as they are printed, without the separator. */
  function Param(key: Str, value: Str): Str { key + [EQUALS, QUOTE] + value + [QUOTE] }

  function Separated(param: Str): Str { [SEMICOLON, SPACE] + param }

  lemma NoFileParameter(filename: Str)
    ensures filename == [] ==> FileParam(filename) == []
  {
  }

  lemma ParamsPrinted(e: Entry, boundary: Str, w: World)
    requires Good(e, boundary, w)
    ensures NameParam(e.name) == Separated(Param(Ascii("name"), e.name))
    ensures e.data.filename != [] ==> FileParam(e.data.filename) == Separated(Param(Ascii("filename"), e.data.filename))
  {
    assert Ascii("; name=\"") == [SEMICOLON, SPACE] + Ascii("name") + [EQUALS, QUOTE];
    assert Ascii("; filename=\"") == [SEMICOLON, SPACE] + Ascii("filename") + [EQUALS, QUOTE];
    hide Good, Ascii, Separated, Param;
    NameFits(e, boundary, w);
    ParamJoin(Ascii("; name=\""), Ascii("name"), e.name);
    ParamJoin(Ascii("; filename=\""), Ascii("filename"), e.data.filename);
  }

  lemma ParamJoin(a: Str, key: Str, value: Str)
    requires a == [SEMICOLON, SPACE] + key + [EQUALS, QUOTE]
    ensures a + value + [QUOTE] == Separated(Param(key, value))
  {
  }

  lemma NameFits(e: Entry, boundary: Str, w: World)
    requires Good(e, boundary, w)
    ensures CString(e.name) == e.name && AfterLast(CString(e.data.filename), SLASH) == e.data.filename
    ensures |Ascii("; name=\"") + e.name + [QUOTE]| <= 255 && |Ascii("; filename=\"") + e.data.filename + [QUOTE]| <= 255
  {
  }

  lemma PlainDisposition(e: Entry, boundary: Str, w: World)
    requires Good(e, boundary, w)
    ensures GoodValue(Disposition(e)) && GoodName(DISPOSITION) && GoodName(TYPE) && 0 !in Disposition(e)
  {
    ParamsPrinted(e, boundary, w);
    var d := Disposition(e);
    assert d[0] == Ascii("form-data")[0];
    NoCr();
    forall i | 0 <= i < |DISPOSITION| ensures FieldChar(DISPOSITION[i]) {}
    forall i | 0 <= i < |TYPE| ensures FieldChar(TYPE[i]) {}
  }

  lemma NoCr()
    ensures Plain(Ascii("form-data")) && CR !in Ascii("name") && CR !in Ascii("filename") && 0 !in Ascii("name") && 0 !in Ascii("filename")
    ensures SEMICOLON !in Ascii("name") && EQUALS !in Ascii("name") && SEMICOLON !in Ascii("filename") && EQUALS !in Ascii("filename")
  {
  }

  lemma HeadersFeed(boundary: Str, r: Run, e: Entry, w: World)
    requires |boundary| > 0 && r.st.mode.FieldStart? && r.pend == [] && Good(e, boundary, w) && GoodWorld(w)
    ensures var t := TypeOf(e.data.filename, w);
            Takes(boundary, r, Headers(e, w) + CRLF,
                  Run(r.st, r.out + HeaderOut(DISPOSITION, Disposition(e)) + (if t == [] then [] else HeaderOut(TYPE, t)), []))
  {
    var t, d := TypeOf(e.data.filename, w), Disposition(e);
    PlainDisposition(e, boundary, w);
    assert t == [] || GoodValue(t);
    hide Good, GoodWorld, Disposition, HeaderLine, HeaderOut, CRLF, DISPOSITION, TYPE, Takes, TypeOf;
    HeaderFeeds(boundary, r, DISPOSITION, d);
    if t == [] {
      NothingMore(HeaderLine(DISPOSITION, d));
      assert r.out + HeaderOut(DISPOSITION, d) + [] == r.out + HeaderOut(DISPOSITION, d);
    } else {
      var u := Run(r.st, r.out + HeaderOut(DISPOSITION, d), []);
      HeaderFeeds(boundary, u, TYPE, t);
      Then(boundary, r, HeaderLine(DISPOSITION, d) + CRLF, u, HeaderLine(TYPE, t) + CRLF, Run(u.st, u.out + HeaderOut(TYPE, t), []));
      LinesJoin(HeaderLine(DISPOSITION, d), HeaderLine(TYPE, t));
    }
  }

  lemma NothingMore(a: Str)
    ensures a + [] + CRLF == a + CRLF
  {
  }

  lemma LinesJoin(a: Str, b: Str)
    ensures (a + (CRLF + b)) + CRLF == (a + CRLF) + (b + CRLF)
  {
    hide CRLF;
  }

  /** The place after a boundary: the first one, or one that ended a part. */
  predicate AfterBoundary(boundary: Str, r: Run) {
    r.pend == [] && |boundary| > 0 && (r.st.mode.AlmostEnd? || r.st == St(StartBoundary, |boundary|))
  }

  lemma PartFeeds(boundary: Str, r: Run, e: Entry, w: World) returns (u: Run)
    requires AfterBoundary(boundary, r) && CR !in boundary && Good(e, boundary, w) && GoodWorld(w)
    ensures Takes(boundary, r, CRLF + (Headers(e, w) + CRLF) + CRLF + (Loaded(e.data, w).content + Delimiter(boundary)), u)
    ensures u.st.mode.AlmostEnd? && u.pend == [] && u.out == r.out + PartOut(e, w)
  {
    var t, d, c := TypeOf(e.data.filename, w), Disposition(e), Loaded(e.data, w).content;
    hide Takes, Feed, FeedAll, GoodWorld, Delimiter, Headers, HeaderOut, Loaded, TypeOf, Disposition, Occurs, CRLF;
    var u1 := Begins(boundary, r);
    HeadersFeed(boundary, u1, e, w);
    var o := u1.out + HeaderOut(DISPOSITION, d) + (if t == [] then [] else HeaderOut(TYPE, t));
    var u2, u3 := Run(u1.st, o, []), Run(St(PartStart, u1.st.index), o, []);
    Blank(boundary, u2);
    u := Data(boundary, u3, c);
    hide Good;
    Then(boundary, r, CRLF, u1, Headers(e, w) + CRLF, u2);
    Then(boundary, r, CRLF + (Headers(e, w) + CRLF), u2, CRLF, u3);
    Then(boundary, r, CRLF + (Headers(e, w) + CRLF) + CRLF, u3, c + Delimiter(boundary), u);
    PartOutIs(r.out, HeaderOut(DISPOSITION, d), if t == [] then [] else HeaderOut(TYPE, t), Parts(c) + [OnPartEnd]);
  }

  lemma Begins(boundary: Str, r: Run) returns (u: Run)
    requires AfterBoundary(boundary, r)
    ensures Takes(boundary, r, CRLF, u) && u.st.mode.FieldStart? && u.pend == [] && u.out == r.out + [OnPartBegin]
  {
    TwoBytes(boundary, r, CR, LF);
    u := Feed(boundary, Feed(boundary, r, CR).value, LF).value;
  }

  lemma Blank(boundary: Str, r: Run)
    requires |boundary| > 0 && r.st.mode.FieldStart? && r.pend == []
    ensures Takes(boundary, r, CRLF, Run(St(PartStart, r.st.index), r.out, []))
  {
    TwoBytes(boundary, r, CR, LF);
  }

  lemma Data(boundary: Str, r: Run, c: Str) returns (u: Run)
    requires |boundary| > 0 && CR !in boundary && !Occurs(Delimiter(boundary), c) && r.st.mode.PartStart? && r.pend == []
    ensures Takes(boundary, r, c + Delimiter(boundary), u)
    ensures u.st.mode.AlmostEnd? && u.pend == [] && u.out == r.out + [OnHeadersComplete] + (Parts(c) + [OnPartEnd])
  {
    DataFeeds(boundary, r, c);
    u := FeedAll(boundary, r, c + Delimiter(boundary)).value;
  }

  lemma PartOutIs(o: seq<Out>, a: seq<Out>, b: seq<Out>, c: seq<Out>)
    ensures (o + [OnPartBegin]) + a + b + [OnHeadersComplete] + c == o + ([OnPartBegin] + a + b + [OnHeadersComplete] + c)
  {
  }

  lemma {:induction false} TailFeeds(boundary: Str, r: Run, form: seq<Entry>, w: World) returns (u: Run)
    requires AfterBoundary(boundary, r) && (form == [] ==> r.st.mode.AlmostEnd?)
    requires CR !in boundary && GoodWorld(w) && forall e :: e in form ==> Good(e, boundary, w)
    ensures Takes(boundary, r, Tail(form, boundary, w), u)
    ensures u.st.mode.End? && u.pend == [] && u.out == r.out + BodyOut(form, w)
    decreases |form|
  {
    if form == [] {
      TwoBytes(boundary, r, HYPHEN, HYPHEN);
      var u1 := Feed(boundary, Feed(boundary, r, HYPHEN).value, HYPHEN).value;
      TwoBytes(boundary, u1, CR, LF);
      u := Feed(boundary, Feed(boundary, u1, CR).value, LF).value;
      Then(boundary, r, [HYPHEN, HYPHEN], u1, CRLF, u);
    } else {
      var u1 := PartFeeds(boundary, r, form[0], w);
      hide Takes, Good;
      u := TailFeeds(boundary, u1, form[1..], w);
      Then(boundary, r, CRLF + (Headers(form[0], w) + CRLF) + CRLF + (Loaded(form[0].data, w).content + Delimiter(boundary)),
           u1, Tail(form[1..], boundary, w), u);
      Associates(r.out, PartOut(form[0], w), BodyOut(form[1..], w));
    }
  }

  lemma Associates(a: seq<Out>, b: seq<Out>, c: seq<Out>)
    ensures (a + b) + c == a + (b + c)
  {
  }

  /** The parser accepts a printed form and reports it part by part. */
  lemma BodyFeeds(boundary: Str, form: seq<Entry>, w: World)
    requires |boundary| > 0 && form != []
    requires CR !in boundary && GoodWorld(w) && forall e :: e in form ==> Good(e, boundary, w)
    ensures var r := Call(boundary, St(Start, 0), Dumped(form, boundary, w)); r.Some? && r.value.out == BodyOut(form, w)
  {
    var r := Run(St(Start, 0), [], []);
    FirstBoundary(boundary, |boundary|);
    assert boundary[..|boundary|] == boundary;
    var r1 := Run(St(StartBoundary, |boundary|), [], []);
    var u := TailFeeds(boundary, r1, form, w);
    DumpedTail(form, boundary, w);
    hide Tail, Dumped, BodyOut;
    Then(boundary, r, boundary, r1, Tail(form, boundary, w), u);
    assert Flush(u).out == [] + BodyOut(form, w) + [];
  }

  // ---- what the callbacks make of it ----

  lemma {:induction false} EventsAppend(u: User, a: seq<Out>, b: seq<Out>)
    ensures Events(u, a + b) == Events(Events(u, a), b)
    decreases |b|
  {
    if b == [] {
      assert a + b == a;
    } else {
      var n := |b| - 1;
      EventsAppend(u, a, b[..n]);
      assert (a + b)[..|a| + n] == a + b[..n];
    }
  }

  lemma OneEvent(u: User, o: Out)
    ensures Events(u, [o]) == Event(u, o)
  {
    assert [o][..0] == [];
  }

  lemma {:induction false} FieldEvents(u: User, s: Str)
    ensures Events(u, Fields(s)) == u.(at := u.at + s)
    decreases |s|
  {
    if s == [] {
      assert u.at + s == u.at;
    } else {
      var n := |s| - 1;
      FieldEvents(u, s[..n]);
      assert Fields(s)[..n] == Fields(s[..n]);
      assert u.at + s == u.at + s[..n] + [s[n]];
    }
  }

  lemma {:induction false} ValueEvents(u: User, s: Str)
    ensures Events(u, Values(s)) == u.(value := u.value + s)
    decreases |s|
  {
    if s == [] {
      assert u.value + s == u.value;
    } else {
      var n := |s| - 1;
      ValueEvents(u, s[..n]);
      assert Values(s)[..n] == Values(s[..n]);
      assert u.value + s == u.value + s[..n] + [s[n]];
    }
  }

  lemma {:induction false} PartEvents(u: User, s: Str)
    ensures Events(u, Parts(s)) == u.(data := u.data + s)
    decreases |s|
  {
    if s == [] {
      assert u.data + s == u.data;
    } else {
      var n := |s| - 1;
      PartEvents(u, s[..n]);
      assert Parts(s)[..n] == Parts(s[..n]);
      assert u.data + s == u.data + s[..n] + [s[n]];
    }
  }

  /** A header: the one before it is dealt with, and this one waits its turn. */
  lemma HeaderEvents(u: User, name: Str, value: Str)
    requires u.at == [] && HandleHeader(u).field == [] && HandleHeader(u).value == []
    ensures Events(u, HeaderOut(name, value)) == HandleHeader(u).(field := name, value := value, at := [])
  {
    FieldEvents(u, name);
    assert [] + name == name && [] + value == value;
    var u1 := u.(at := name);
    OneEvent(u1, OnName);
    EventsAppend(u, Fields(name), [OnName]);
    var u2 := HandleHeader(u).(at := [], field := name);
    assert HandleHeader(u1) == HandleHeader(u).(at := name) by { AtApart(u, name); }
    EventsAppend(u, Fields(name) + [OnName], Values(value));
    ValueEvents(u2, value);
  }

  /** The bytes under way do not matter to the headers. */
  lemma AtApart(u: User, at: Str)
    ensures HandleHeader(u.(at := at)) == HandleHeader(u).(at := at)
  {
    ParametersAt(u, Split(CString(u.value), SEMICOLON), at);
  }

  lemma {:induction false} ParametersAt(u: User, strs: seq<Str>, at: Str)
    ensures Parameters(u.(at := at), strs) == Parameters(u, strs).(at := at)
    decreases |strs|
  {
    if strs != [] { ParametersAt(Parameter(u, strs[0]), strs[1..], at); }
  }

  /** One printed parameter is read back. */
  lemma ParamRead(key: Str, value: Str)
    requires key != [] && key[0] != SPACE && EQUALS !in key && 0 !in key && EQUALS !in value && 0 !in value
    ensures Split(CString(Trim([SPACE] + Param(key, value))), EQUALS) == [key, [QUOTE] + value + [QUOTE]]
    ensures Unquote([QUOTE] + value + [QUOTE]) == value
  {
    hide Split, CString, Trim, Unquote;
    var q := [QUOTE] + value + [QUOTE];
    var s := key + [EQUALS] + q;
    assert Param(key, value) == s;
    Trimmed(s);
    assert 0 !in s;
    SplitFirst(key, EQUALS, q);
    SplitNone(q, EQUALS);
    Unquoted(value);
  }

  lemma Trimmed(s: Str)
    requires s != [] && s[0] != SPACE && s[|s| - 1] != SPACE
    ensures Trim([SPACE] + s) == s
  {
    assert ([SPACE] + s)[1..] == s;
    assert TrimLeft([SPACE] + s, SPACE) == TrimLeft(s, SPACE) == s;
  }

  lemma Unquoted(value: Str)
    ensures Unquote([QUOTE] + value + [QUOTE]) == value
  {
    var q := [QUOTE] + value + [QUOTE];
    assert q[1..|q| - 1] == value;
  }

  /** The pieces of a printed disposition. */
  lemma DispositionSplits(e: Entry, boundary: Str, w: World)
    requires Good(e, boundary, w)
    ensures var f, n := Ascii("form-data"), [SPACE] + Param(Ascii("name"), e.name);
            Split(CString(Disposition(e)), SEMICOLON) ==
              if e.data.filename == [] then [f, n] else [f, n, [SPACE] + Param(Ascii("filename"), e.data.filename)]
  {
    var f, n := Ascii("form-data"), [SPACE] + Param(Ascii("name"), e.name);
    var g := [SPACE] + Param(Ascii("filename"), e.data.filename);
    PlainDisposition(e, boundary, w);
    ParamsPrinted(e, boundary, w);
    NoCr();
    assert SEMICOLON !in n && SEMICOLON !in g;
    NoFileParameter(e.data.filename);
    hide Good, Ascii, Param, FileParam, NameParam;
    PiecesJoin(f, n, g, NameParam(e.name), FileParam(e.data.filename), e.data.filename == []);
    hide Disposition;
    if e.data.filename == [] { SplitTwo(f, n); } else { SplitThree(f, n, g); }
  }

  lemma PiecesJoin(f: Str, n: Str, g: Str, a: Str, b: Str, none: bool)
    requires a == [SEMICOLON] + n && (if none then b == [] else b == [SEMICOLON] + g)
    ensures f + a + b == if none then f + [SEMICOLON] + n else f + [SEMICOLON] + (n + [SEMICOLON] + g)
  {
  }

  lemma SplitTwo(f: Str, n: Str)
    requires SEMICOLON !in f && SEMICOLON !in n
    ensures Split(f + [SEMICOLON] + n, SEMICOLON) == [f, n]
  {
    hide Split;
    SplitFirst(f, SEMICOLON, n);
    SplitNone(n, SEMICOLON);
  }

  lemma SplitThree(f: Str, n: Str, g: Str)
    requires SEMICOLON !in f && SEMICOLON !in n && SEMICOLON !in g
    ensures Split(f + [SEMICOLON] + (n + [SEMICOLON] + g), SEMICOLON) == [f, n, g]
  {
    hide Split;
    SplitFirst(f, SEMICOLON, n + [SEMICOLON] + g);
    SplitFirst(n, SEMICOLON, g);
    SplitNone(g, SEMICOLON);
  }

  lemma FormDataIgnored(u: User)
    ensures Parameter(u, Ascii("form-data")) == u
  {
    var f := Ascii("form-data");
    NoCr();
    assert f[0] != SPACE && f[|f| - 1] != SPACE;
    SplitNone(f, EQUALS);
  }

  lemma NameTaken(u: User, key: Str, value: Str)
    requires key == Ascii("name") && Plain(value)
    ensures Parameter(u, [SPACE] + Param(key, value)) == u.(name := value)
  {
    NoCr();
    ParamRead(key, value);
  }

  lemma FilenameTaken(u: User, key: Str, value: Str)
    requires key == Ascii("filename") && Plain(value)
    ensures Parameter(u, [SPACE] + Param(key, value)) == u.(filename := value)
  {
    NoCr();
    ParamRead(key, value);
    assert |Ascii("name")| == 4 && |Ascii("filename")| == 8;
  }

  /** The disposition of an entry is read back. */
  lemma DispositionRead(u: User, e: Entry, boundary: Str, w: World)
    requires Good(e, boundary, w) && u.filename == []
    ensures Parameters(u, Split(CString(Disposition(e)), SEMICOLON)) == u.(name := e.name, filename := e.data.filename)
  {
    DispositionSplits(e, boundary, w);
    FormDataIgnored(u);
    NameTaken(u, Ascii("name"), e.name);
    var v := u.(name := e.name);
    FilenameTaken(v, Ascii("filename"), e.data.filename);
    hide Good, Parameter, Param, Ascii, Disposition, Split;
    var n, g := [SPACE] + Param(Ascii("name"), e.name), [SPACE] + Param(Ascii("filename"), e.data.filename);
    ThreeParameters(u, Ascii("form-data"), n, g);
    TwoParameters(u, Ascii("form-data"), n);
  }

  lemma NextParameter(u: User, s: Str, rest: seq<Str>)
    ensures Parameters(u, [s] + rest) == Parameters(Parameter(u, s), rest)
  {
    assert ([s] + rest)[1..] == rest;
  }

  lemma TwoParameters(u: User, a: Str, b: Str)
    ensures Parameters(u, [a, b]) == Parameter(Parameter(u, a), b)
  {
    hide Parameter;
    NextParameter(u, a, [b]);
    NextParameter(Parameter(u, a), b, []);
    assert [a] + [b] == [a, b] && [b] + [] == [b];
  }

  lemma ThreeParameters(u: User, a: Str, b: Str, c: Str)
    ensures Parameters(u, [a, b, c]) == Parameter(Parameter(Parameter(u, a), b), c)
  {
    hide Parameter;
    NextParameter(u, a, [b, c]);
    TwoParameters(Parameter(u, a), b, c);
    assert [a] + [b, c] == [a, b, c];
  }

  predicate Idle(u: User) { u == NewUser(u.mp) }

  lemma DispositionHandled(u: User, e: Entry, boundary: Str, w: World)
    requires Good(e, boundary, w) && Idle(u)
    ensures HandleHeader(u.(field := DISPOSITION, value := Disposition(e))) == u.(name := e.name, filename := e.data.filename)
  {
    var v := u.(field := DISPOSITION, value := Disposition(e));
    PlainDisposition(e, boundary, w);
    DispositionRead(v, e, boundary, w);
    assert DISPOSITION != [];
  }

  lemma TypeHandled(u: User, t: Str)
    requires u.field == TYPE && u.value == t && t != []
    ensures HandleHeader(u) == u.(field := [], value := [])
  {
    assert |Lower(DISPOSITION)| == 19 && |TYPE| == 12 && |CString(TYPE)| <= 12 by { CStringShorter(TYPE); }
    assert TYPE != [];
  }

  lemma {:induction false} CStringShorter(s: Str)
    ensures |CString(s)| <= |s|
    decreases |s|
  {
    if s != [] { CStringShorter(s[1..]); }
  }

  /** One part adds its entry. */
  lemma PartEvent(u: User, e: Entry, boundary: Str, w: World)
    requires Idle(u) && Good(e, boundary, w) && GoodWorld(w)
    ensures Events(u, PartOut(e, w)) == u.(mp := u.mp[e.name := Loaded(e.data, w)])
  {
    var t, c := TypeOf(e.data.filename, w), Loaded(e.data, w).content;
    var a := HeaderOut(DISPOSITION, Disposition(e));
    var b := if t == [] then [] else HeaderOut(TYPE, t);
    assert e.name != [] && Loaded(e.data, w).filename == e.data.filename;
    hide Good, GoodWorld, HeaderOut, Disposition, TypeOf, HandleHeader, Loaded, Events;
    var u2 := HeadersEvents(u, e, boundary, w);
    var u3 := u.(name := e.name, filename := e.data.filename);
    DataEvents(u2, u3, c);
    EventsAppend(u, [OnPartBegin] + a + b, [OnHeadersComplete] + (Parts(c) + [OnPartEnd]));
    PartOutJoins([OnPartBegin] + a + b, Parts(c) + [OnPartEnd]);
  }

  lemma PartOutJoins(h: seq<Out>, d: seq<Out>)
    ensures h + ([OnHeadersComplete] + d) == h + [OnHeadersComplete] + d
  {
  }

  /** After the headers of a part, one of them still waits to be dealt with. */
  lemma HeadersEvents(u: User, e: Entry, boundary: Str, w: World) returns (u2: User)
    requires Idle(u) && Good(e, boundary, w) && GoodWorld(w)
    ensures var t := TypeOf(e.data.filename, w);
            u2 == Events(u, [OnPartBegin] + HeaderOut(DISPOSITION, Disposition(e)) + if t == [] then [] else HeaderOut(TYPE, t))
    ensures HandleHeader(u2) == u.(name := e.name, filename := e.data.filename)
  {
    hide Good, HeaderOut, Disposition, TypeOf, HandleHeader, DISPOSITION, TYPE, Events, Idle;
    var t := TypeOf(e.data.filename, w);
    var a := HeaderOut(DISPOSITION, Disposition(e));
    u2 := FirstHeader(u, e, boundary, w);
    if t == [] {
      NoneMore([OnPartBegin] + a);
    } else {
      EventsAppend(u, [OnPartBegin] + a, HeaderOut(TYPE, t));
      u2 := SecondHeader(u2, t);
    }
  }

  lemma NoneMore(a: seq<Out>)
    ensures a + [] == a
  {
  }

  lemma FirstHeader(u: User, e: Entry, boundary: Str, w: World) returns (u1: User)
    requires Idle(u) && Good(e, boundary, w)
    ensures u1 == Events(u, [OnPartBegin] + HeaderOut(DISPOSITION, Disposition(e))) && u1.at == []
    ensures HandleHeader(u1) == u.(name := e.name, filename := e.data.filename)
    ensures HandleHeader(u1).field == [] && HandleHeader(u1).value == [] && HandleHeader(u1).at == []
  {
    hide Good, HeaderOut, Disposition, HandleHeader, DISPOSITION, Events, Idle, Event;
    DispositionHandled(u, e, boundary, w);
    IdleFields(u);
    IdleHeader(u);
    u1 := u.(field := DISPOSITION, value := Disposition(e));
    HeaderEvents(u, DISPOSITION, Disposition(e));
    BeginIgnored(u, HeaderOut(DISPOSITION, Disposition(e)));
  }

  lemma IdleFields(u: User)
    requires Idle(u)
    ensures u.at == [] && u.field == [] && u.value == []
  {
  }

  lemma BeginIgnored(u: User, rest: seq<Out>)
    ensures Events(u, [OnPartBegin] + rest) == Events(u, rest)
  {
    OneEvent(u, OnPartBegin);
    EventsAppend(u, [OnPartBegin], rest);
  }

  lemma SecondHeader(u1: User, t: Str) returns (u2: User)
    requires t != [] && u1.at == []
    requires HandleHeader(u1).field == [] && HandleHeader(u1).value == [] && HandleHeader(u1).at == []
    ensures u2 == Events(u1, HeaderOut(TYPE, t)) && HandleHeader(u2) == HandleHeader(u1)
  {
    hide HeaderOut, HandleHeader, TYPE, Events;
    u2 := HandleHeader(u1).(field := TYPE, value := t, at := []);
    HeaderEvents(u1, TYPE, t);
    TypeHandled(u2, t);
  }

  lemma DataEvents(u2: User, u3: User, c: Str)
    requires HandleHeader(u2) == u3 && u3 == NewUser(u3.mp).(name := u3.name, filename := u3.filename) && u3.name != []
    ensures Events(u2, [OnHeadersComplete] + (Parts(c) + [OnPartEnd]))
         == NewUser(u3.mp[u3.name := FormData(u3.filename, c)])
  {
    hide HandleHeader;
    OneEvent(u2, OnHeadersComplete);
    PartEvents(u3, c);
    assert [] + c == c;
    OneEvent(u3.(data := c), OnPartEnd);
    EventsAppend(u2, [OnHeadersComplete], Parts(c) + [OnPartEnd]);
    EventsAppend(u3, Parts(c), [OnPartEnd]);
  }

  lemma IdleHeader(u: User)
    requires u.field == []
    ensures HandleHeader(u) == u
  {
  }

  /** The map that a form stands for, file contents included. */
  function MapOf(form: seq<Entry>, w: World): map<Str, FormData> {
    if form == [] then map[] else MapOf(form[..|form| - 1], w)[form[|form| - 1].name := Loaded(form[|form| - 1].data, w)]
  }

  lemma {:induction false} BodyEvents(u: User, form: seq<Entry>, boundary: Str, w: World)
    requires Idle(u) && GoodWorld(w) && forall e :: e in form ==> Good(e, boundary, w)
    ensures Events(u, BodyOut(form, w)) == u.(mp := u.mp + MapOf(form, w))
    decreases |form|
  {
    if form == [] {
      OneEvent(u, OnBodyEnd);
      assert u.mp + map[] == u.mp;
    } else {
      hide Good;
      var e, u1 := form[0], u.(mp := u.mp[form[0].name := Loaded(form[0].data, w)]);
      PartEvent(u, e, boundary, w);
      EventsAppend(u, PartOut(e, w), BodyOut(form[1..], w));
      BodyEvents(u1, form[1..], boundary, w);
      FirstOf(u.mp, form, w);
    }
  }

  lemma {:induction false} FirstOf(mp: map<Str, FormData>, form: seq<Entry>, w: World)
    requires form != []
    ensures mp + MapOf(form, w) == mp[form[0].name := Loaded(form[0].data, w)] + MapOf(form[1..], w)
    decreases |form|
  {
    var n := |form| - 1;
    if n == 0 {
      assert form[..0] == [] && form[1..] == [];
    } else {
      FirstOf(mp, form[..n], w);
      assert form[..n][1..] == form[1..][..n - 1];
      hide Loaded;
      var k, v := form[n].name, Loaded(form[n].data, w);
      Overlay(mp, MapOf(form[..n], w), k, v);
      Overlay(mp[form[0].name := Loaded(form[0].data, w)], MapOf(form[1..][..n - 1], w), k, v);
    }
  }

  lemma Overlay(mp: map<Str, FormData>, m: map<Str, FormData>, k: Str, v: FormData)
    ensures mp + m[k := v] == (mp + m)[k := v]
  {
  }

  /** Printing a form and reading the result gives the form back, with the contents that came from files;
      what was in the map before stays unless an entry of the form replaces it. */
  lemma RoundTrip(form: seq<Entry>, boundary: Str, w: World, mp: map<Str, FormData>)
    requires form != [] && CR !in boundary && GoodWorld(w)
    requires forall e :: e in form ==> Good(e, Dashed(boundary), w)
    ensures var r := Call(Dashed(boundary), St(Start, 0), Dumped(form, Dashed(boundary), w));
            r.Some? && Events(NewUser(mp), r.value.out).mp == mp + MapOf(form, w)
  {
    BodyFeeds(Dashed(boundary), form, w);
    BodyEvents(NewUser(mp), form, Dashed(boundary), w);
  }

  /** dump_multipart, then parse_multipart. */
  method DumpThenParse(form: seq<Entry>, boundary: Str, w: World) returns (ret: int, mp: map<Str, FormData>)
    requires form != [] && CR !in boundary && GoodWorld(w)
    requires forall e :: e in form ==> Good(e, Dashed(boundary), w)
    ensures ret == 0 && mp == MapOf(form, w)
  {
    RoundTrip(form, boundary, w, map[]);
    assert map[] + MapOf(form, w) == MapOf(form, w);
    var str, kept := DumpMultipart(form, boundary, w);
    ret, mp := ParseMultipart(str, boundary, map[]);
  }
}
