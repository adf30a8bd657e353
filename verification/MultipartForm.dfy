/** http/http_content.cpp: printing a form as a multipart body (RFC 7578) and reading one back, with the string
    helpers of cpputil/hstring.cpp. */
module MultipartForm {
  import opened MultipartSpec
  import opened MultipartBoundary
  import opened MultipartParser

  type Str = seq<Byte>

  const EQUALS: Byte := 61
  const SEMICOLON: Byte := 59
  const QUOTE: Byte := 34
  const APOSTROPHE: Byte := 39
  const SLASH: Byte := 47
  const DOT: Byte := 46
  const CRLF: Str := [CR, LF]

  datatype FormData = FormData(filename: Str, content: Str)
  datatype Entry = Entry(name: Str, data: FormData)

  function Ascii(s: string): Str { seq(|s|, i requires 0 <= i < |s| => if s[i] as int < 256 then s[i] as int else 0) }

  // ---- strings ----

  /** A string up to its first NUL. */
  function CString(s: Str): (r: Str)
    ensures 0 !in s ==> r == s
  {
    if s == [] || s[0] == 0 then [] else [s[0]] + CString(s[1..])
  }

  /** The part after the last occurrence of `c`; all of it if there is none. */
  function AfterLast(s: Str, c: Byte): (r: Str)
    ensures c !in s ==> r == s
  {
    if s == [] then [] else if s[|s| - 1] == c then [] else AfterLast(s[..|s| - 1], c) + [s[|s| - 1]]
  }

  /** What snprintf leaves in a buffer of 256 bytes. */
  function Cut(s: Str): Str { if |s| > 255 then s[..255] else s }

  /** The pieces between occurrences of `d`. */
  function Split(s: Str, d: Byte): (r: seq<Str>)
    ensures |r| > 0
  {
    if s == [] then [[]]
    else
      var r := Split(s[1..], d);
      if s[0] == d then [[]] + r else [[s[0]] + r[0]] + r[1..]
  }

  /** hstring.cpp split: one pass with a pointer to the start of the current piece. */
  method SplitString(str: Str, d: Byte) returns (res: seq<Str>)
    ensures res == Split(CString(str), d)
  {
    var s := CString(str);
    res := [];
    var p, value := 0, 0;
    while p < |s|
      invariant 0 <= value <= p <= |s| && d !in s[value..p]
      invariant Split(s, d) == res + Split(s[value..], d)
      decreases |s| - p
    {
      if s[p] == d {
        SplitStep(s, d, value, p, res);
        res := res + [s[value..p]];
        value := p + 1;
      } else {
        assert s[value..p + 1] == s[value..p] + [s[p]];
      }
      p := p + 1;
    }
    assert s[value..] == s[value..p];
    SplitNone(s[value..], d);
    res := res + [s[value..]];
  }

  lemma SplitStep(s: Str, d: Byte, value: nat, p: nat, res: seq<Str>)
    requires value <= p < |s| && s[p] == d && d !in s[value..p]
    ensures res + Split(s[value..], d) == (res + [s[value..p]]) + Split(s[p + 1..], d)
  {
    assert s[value..] == s[value..p] + [d] + s[p + 1..];
    SplitFirst(s[value..p], d, s[p + 1..]);
  }

  lemma {:induction false} SplitNone(s: Str, d: Byte)
    requires d !in s
    ensures Split(s, d) == [s]
  {
    if s != [] {
      SplitNone(s[1..], d);
      assert s == [s[0]] + s[1..];
    }
  }

  lemma {:induction false} SplitFirst(a: Str, d: Byte, rest: Str)
    requires d !in a
    ensures Split(a + [d] + rest, d) == [a] + Split(rest, d)
  {
    var s := a + [d] + rest;
    if a == [] {
      assert s[1..] == rest;
    } else {
      SplitFirst(a[1..], d, rest);
      assert s[1..] == a[1..] + [d] + rest;
      assert a == [a[0]] + a[1..];
      var r := [a[1..]] + Split(rest, d);
      assert r[1..] == Split(rest, d);
    }
  }

  function TrimLeft(s: Str, c: Byte): Str {
    if s != [] && s[0] == c then TrimLeft(s[1..], c) else s
  }

  function TrimRight(s: Str, c: Byte): Str {
    if s != [] && s[|s| - 1] == c then TrimRight(s[..|s| - 1], c) else s
  }

  /** trim(str, " "). */
  function Trim(s: Str): Str { TrimRight(TrimLeft(s, SPACE), SPACE) }

  /** trim_pairs with double and single quotes. */
  function Unquote(s: Str): Str {
    if s != [] && s[0] == s[|s| - 1] && (s[0] == QUOTE || s[0] == APOSTROPHE) then
      if |s| == 1 then [] else s[1..|s| - 1]
    else s
  }

  function LowerByte(c: Byte): Byte { if 65 <= c <= 90 then c + 32 else c }

  function Lower(s: Str): Str { seq(|s|, i requires 0 <= i < |s| => LowerByte(s[i])) }

  // ---- dump_multipart ----

  /** What the outside world supplies: the media type of a suffix, empty if there is none, and the contents of files. */
  datatype World = World(mime: Str -> Str, file: Str -> Str)

  /** A file without contents is read from disk. */
  function Loaded(d: FormData, w: World): FormData {
    if d.filename != [] && d.content == [] then d.(content := w.file(CString(d.filename))) else d
  }

  function NameParam(name: Str): Str { Cut(Ascii("; name=\"") + CString(name) + [QUOTE]) }

  function FileParam(filename: Str): Str {
    if filename == [] then [] else Cut(Ascii("; filename=\"") + AfterLast(CString(filename), SLASH) + [QUOTE])
  }

  function Disposition(e: Entry): Str { Ascii("form-data") + NameParam(e.name) + FileParam(e.data.filename) }

  function TypeOf(filename: Str, w: World): Str {
    if filename == [] || DOT !in CString(filename) then [] else w.mime(AfterLast(CString(filename), DOT))
  }

  function HeaderLine(name: Str, value: Str): Str { name + [COLON, SPACE] + value }

  const DISPOSITION: Str := Ascii("Content-Disposition")
  const TYPE: Str := Ascii("Content-Type")

  function Headers(e: Entry, w: World): Str {
    var t := TypeOf(e.data.filename, w);
    HeaderLine(DISPOSITION, Disposition(e)) + if t == [] then [] else CRLF + HeaderLine(TYPE, t)
  }

  function Part(e: Entry, boundary: Str, w: World): Str {
    boundary + CRLF + Headers(e, w) + CRLF + CRLF + Loaded(e.data, w).content + CRLF
  }

  function Dumped(form: seq<Entry>, boundary: Str, w: World): Str {
    if form == [] then boundary + [HYPHEN, HYPHEN] + CRLF
    else Part(form[0], boundary, w) + Dumped(form[1..], boundary, w)
  }

  function Dashed(boundary: Str): Str { [HYPHEN, HYPHEN] + boundary }

  // ---- parse_multipart ----

  /** multipart_parser_userdata; `at` holds the bytes of a header name on their way to on_header_field. */
  datatype User = User(at: Str, field: Str, value: Str, data: Str, name: Str, filename: Str, mp: map<Str, FormData>)

  function Parameter(u: User, str: Str): User {
    var kv := Split(CString(Trim(str)), EQUALS);
    if |kv| != 2 then u
    else if kv[0] == Ascii("name") then u.(name := Unquote(kv[1]))
    else if kv[0] == Ascii("filename") then u.(filename := Unquote(kv[1]))
    else u
  }

  function Parameters(u: User, strs: seq<Str>): User
    decreases |strs|
  {
    if strs == [] then u else Parameters(Parameter(u, strs[0]), strs[1..])
  }

  function HandleHeader(u: User): User {
    if u.field == [] || u.value == [] then u
    else
      var v := if Lower(CString(u.field)) == Lower(DISPOSITION) then Parameters(u, Split(CString(u.value), SEMICOLON)) else u;
      v.(field := [], value := [])
  }

  function HandleData(u: User): User {
    var v := if u.name != [] then u.(mp := u.mp[u.name := FormData(u.filename, u.data)]) else u;
    v.(name := [], filename := [], data := [])
  }

  /** The callbacks. */
  function Event(u: User, o: Out): User {
    match o
    case FieldByte(c) => u.(at := u.at + [c])
    case OnName => var v := HandleHeader(u); v.(at := [], field := v.field + u.at)
    case ValueByte(c) => u.(value := u.value + [c])
    case PartByte(c) => u.(data := u.data + [c])
    case OnPartBegin => u
    case OnHeadersComplete => HandleHeader(u)
    case OnPartEnd => HandleData(u)
    case OnBodyEnd => u
  }

  function Events(u: User, os: seq<Out>): User {
    if os == [] then u else Event(Events(u, os[..|os| - 1]), os[|os| - 1])
  }

  function NewUser(mp: map<Str, FormData>): User { User([], [], [], [], [], [], mp) }

  /** dump_multipart; the form keeps the contents that were read from files. */
  method DumpMultipart(form: seq<Entry>, boundary: Str, w: World) returns (str: Str, kept: seq<Entry>)
    ensures str == Dumped(form, Dashed(boundary), w)
    ensures |kept| == |form| && forall i :: 0 <= i < |form| ==> kept[i] == form[i].(data := Loaded(form[i].data, w))
  {
    hide Part, Loaded, Dashed;
    str, kept := [], form;
    var i := 0;
    while i < |form|
      invariant 0 <= i <= |form| == |kept|
      invariant Dumped(form, Dashed(boundary), w) == str + Dumped(form[i..], Dashed(boundary), w)
      invariant forall j :: 0 <= j < |form| ==> kept[j] == if j < i then form[j].(data := Loaded(form[j].data, w)) else form[j]
    {
      var part, d := DumpPart(form[i], boundary, w);
      NextPart(str, form[i..], boundary, w);
      assert form[i..][1..] == form[i + 1..];
      str := str + part;
      kept := kept[i := form[i].(data := d)];
      i := i + 1;
    }
    assert form[i..] == [];
    LastPiece(str, boundary, w);
    str := str + [HYPHEN, HYPHEN] + boundary + [HYPHEN, HYPHEN] + CRLF;
  }

  lemma LastPiece(str: Str, boundary: Str, w: World)
    ensures str + Dumped([], Dashed(boundary), w) == str + [HYPHEN, HYPHEN] + boundary + [HYPHEN, HYPHEN] + CRLF
  {
    hide CRLF;
  }

  /** One round of the loop of dump_multipart. */
  method DumpPart(e: Entry, boundary: Str, w: World) returns (part: Str, d: FormData)
    ensures part == Part(e, Dashed(boundary), w) && d == Loaded(e.data, w)
  {
    hide Ascii, NameParam, FileParam, CRLF, AfterLast, CString, DISPOSITION, TYPE;
    d := e.data;
    part := [HYPHEN, HYPHEN] + boundary + CRLF;
    var header := DISPOSITION + [COLON, SPACE] + Ascii("form-data") + NameParam(e.name);
    var extra: Str := [];
    if e.data.filename != [] {
      if d.content == [] {
        d := d.(content := w.file(CString(d.filename)));
      }
      header := header + FileParam(e.data.filename);
      if DOT in CString(e.data.filename) {
        var stype := w.mime(AfterLast(CString(e.data.filename), DOT));
        if stype != [] { extra := CRLF + (TYPE + [COLON, SPACE] + stype); }
      }
    } else {
      NoFileParam(e.data.filename);
    }
    DispositionIs(e);
    part := part + (header + extra) + CRLF + CRLF + d.content + CRLF;
  }

  lemma NoFileParam(filename: Str)
    requires filename == []
    ensures FileParam(filename) == []
  {
  }

  lemma DispositionIs(e: Entry)
    ensures HeaderLine(DISPOSITION, Disposition(e))
         == DISPOSITION + [COLON, SPACE] + Ascii("form-data") + NameParam(e.name) + FileParam(e.data.filename)
  {
    hide Ascii, NameParam, FileParam, DISPOSITION;
  }

  lemma NextPart(str: Str, form: seq<Entry>, boundary: Str, w: World)
    requires form != []
    ensures str + Dumped(form, Dashed(boundary), w)
         == (str + Part(form[0], Dashed(boundary), w)) + Dumped(form[1..], Dashed(boundary), w)
  {
  }

  /** parse_multipart; the callbacks are run on what the parser reported. */
  method ParseMultipart(str: Str, boundary: Str, mp0: map<Str, FormData>) returns (ret: int, mp: map<Str, FormData>)
    ensures var r := Call(Dashed(boundary), St(Start, 0), str);
            if r.Some? then ret == 0 && mp == Events(NewUser(mp0), r.value.out).mp else ret == -1
  {
    var parser := new Parser(Dashed(boundary));
    var n := parser.Execute(str);
    ghost var r := FeedAll(Dashed(boundary), Run(St(Start, 0), [], []), str[..n]);
    assert n == |str| ==> str[..n] == str && parser.trace == r.value.out + r.value.pend;
    var u, os := NewUser(mp0), parser.trace;
    for i := 0 to |os|
      invariant u == Events(NewUser(mp0), os[..i])
    {
      assert os[..i + 1][..i] == os[..i];
      u := Event(u, os[i]);
    }
    assert os[..|os|] == os;
    mp := u.mp;
    ret := if n == |str| then 0 else -1;
    if n < |str| { Refused(Dashed(boundary), Run(St(Start, 0), [], []), str, n); }
  }

  lemma Refused(boundary: Str, r: Run, s: Str, n: nat)
    requires Ready(boundary, r.st) && n < |s| && FeedAll(boundary, r, s[..n]).Some?
    requires Feed(boundary, FeedAll(boundary, r, s[..n]).value, s[n]).None?
    ensures FeedAll(boundary, r, s).None?
  {
    FeedAllAppend(boundary, r, s[..n], s[n..]);
    assert s[..n] + s[n..] == s;
  }
}
