/** What http/multipart_parser.c makes of each byte, and what that means for whole bodies. */
module MultipartSpec {
  type Byte = b: int | 0 <= b < 256
  const LF: Byte := 10
  const CR: Byte := 13
  const SPACE: Byte := 32
  const HYPHEN: Byte := 45
  const COLON: Byte := 58

  datatype Mode =
    | Start | StartBoundary
    | FieldStart | Field | HeadersAlmostDone | ValueStart | Value | ValueAlmostDone
    | PartStart | PartData | AlmostBoundary | Boundary | AlmostEnd | PartEnd | FinalHyphen
    | End

  /** `state` and `index` of the parser. */
  datatype St = St(mode: Mode, index: nat)

  /** What the callbacks get: data byte by byte, and the notifications. */
  datatype Out =
    | FieldByte(c: Byte) | ValueByte(c: Byte) | PartByte(c: Byte)
    | OnName  // on_header_field at the colon, after which the name is complete
    | OnPartBegin | OnHeadersComplete | OnPartEnd | OnBodyEnd

  /** A call in progress: what the callbacks got, and the bytes from `mark` on that they are still to get. */
  datatype Run = Run(st: St, out: seq<Out>, pend: seq<Out>)

  datatype Option<T> = None | Some(value: T)

  function Parts(s: seq<Byte>): seq<Out> { seq(|s|, i requires 0 <= i < |s| => PartByte(s[i])) }

  /** A letter or a hyphen. */
  predicate FieldChar(c: Byte) { c == HYPHEN || 97 <= c <= 122 || 65 <= c <= 90 }

  predicate Ready(boundary: seq<Byte>, st: St) {
    && |boundary| > 0
    && (st.mode.StartBoundary? ==> st.index <= |boundary| + 1)
    && (st.mode.Boundary? ==> st.index < |boundary|)
  }

  function Go(r: Run, mode: Mode): Run { r.(st := St(mode, r.st.index)) }

  /** What waits from `mark` on goes to the callback. */
  function Flush(r: Run): Run { r.(out := r.out + r.pend, pend := []) }

  function Emit(r: Run, o: seq<Out>): Run { r.(out := r.out + o) }

  function Keep(r: Run, o: Out): Run { r.(pend := r.pend + [o]) }

  function FeedField(r: Run, c: Byte): Option<Run> {
    if c == CR then Some(Go(r, HeadersAlmostDone).(pend := []))  // a line without a colon is dropped
    else if c == COLON then Some(Emit(Go(Flush(r), ValueStart), [OnName]))
    else if FieldChar(c) then Some(Keep(Go(r, Field), FieldByte(c)))
    else None
  }

  function FeedValue(r: Run, c: Byte): Run {
    if c == CR then Go(Flush(r), ValueAlmostDone) else Keep(Go(r, Value), ValueByte(c))
  }

  function FeedPart(r: Run, c: Byte): Run {
    if c == CR then Go(Flush(r), AlmostBoundary) else Keep(Go(r, PartData), PartByte(c))
  }

  function FeedStart(boundary: seq<Byte>, r: Run, index: nat, c: Byte): Option<Run>
    requires index <= |boundary| + 1
  {
    if index == |boundary| then
      if c == CR then Some(r.(st := St(StartBoundary, index + 1))) else None
    else if index == |boundary| + 1 then
      if c == LF then Some(Emit(r.(st := St(FieldStart, 0)), [OnPartBegin])) else None
    else if c == boundary[index] then Some(r.(st := St(StartBoundary, index + 1)))
    else None
  }

  /** One byte; None where multipart_parser_execute gives up. */
  function Feed(boundary: seq<Byte>, r: Run, c: Byte): Option<Run>
    requires Ready(boundary, r.st)
  {
    var index := r.st.index;
    match r.st.mode
    case Start => FeedStart(boundary, r, 0, c)
    case StartBoundary => FeedStart(boundary, r, index, c)
    case FieldStart | Field => FeedField(r, c)
    case HeadersAlmostDone => if c == LF then Some(Go(r, PartStart)) else None
    case ValueStart => Some(if c == SPACE then r else FeedValue(r, c))
    case Value => Some(FeedValue(r, c))
    case ValueAlmostDone => if c == LF then Some(Go(r, FieldStart)) else None
    case PartStart => Some(FeedPart(Emit(r, [OnHeadersComplete]), c))
    case PartData => Some(FeedPart(r, c))
    case AlmostBoundary =>
      if c == LF then Some(r.(st := St(Boundary, 0))) else Some(FeedPart(Emit(r, [PartByte(CR)]), c))
    case Boundary =>
      if c != boundary[index] then Some(FeedPart(Emit(r, Parts([CR, LF] + boundary[..index])), c))
      else if index + 1 == |boundary| then Some(Emit(r.(st := St(AlmostEnd, index + 1)), [OnPartEnd]))
      else Some(r.(st := St(Boundary, index + 1)))
    case AlmostEnd => if c == HYPHEN then Some(Go(r, FinalHyphen)) else if c == CR then Some(Go(r, PartEnd)) else None
    case FinalHyphen => if c == HYPHEN then Some(Emit(Go(r, End), [OnBodyEnd])) else None
    case PartEnd => if c == LF then Some(Emit(Go(r, FieldStart), [OnPartBegin])) else None
    case End => Some(r)
  }

  lemma FeedReady(boundary: seq<Byte>, r: Run, c: Byte)
    requires Ready(boundary, r.st) && Feed(boundary, r, c).Some?
    ensures Ready(boundary, Feed(boundary, r, c).value.st)
  {
  }

  /** The bytes one after the other; None if one of them is refused. */
  function FeedAll(boundary: seq<Byte>, r: Run, s: seq<Byte>): (t: Option<Run>)
    requires Ready(boundary, r.st)
    ensures t.Some? ==> Ready(boundary, t.value.st)
    decreases |s|
  {
    if s == [] then Some(r)
    else
      var u := Feed(boundary, r, s[0]);
      if u.None? then None else FeedAll(boundary, u.value, s[1..])
  }

  /** One call: what is left over from `mark` on is handed over at its end. */
  function Call(boundary: seq<Byte>, st: St, s: seq<Byte>): (t: Option<Run>)
    requires Ready(boundary, st)
    ensures t.Some? ==> Ready(boundary, t.value.st) && t.value.pend == []
  {
    var u := FeedAll(boundary, Run(st, [], []), s);
    if u.None? then None else Some(Flush(u.value))
  }

  /** Several calls. */
  function Calls(boundary: seq<Byte>, st: St, chunks: seq<seq<Byte>>): (t: Option<Run>)
    requires Ready(boundary, st)
    ensures t.Some? ==> Ready(boundary, t.value.st)
    decreases |chunks|
  {
    if chunks == [] then Some(Run(st, [], []))
    else
      var u := Call(boundary, st, chunks[0]);
      if u.None? then None
      else
        var v := Calls(boundary, u.value.st, chunks[1..]);
        if v.None? then None else Some(Run(v.value.st, u.value.out + v.value.out, []))
  }

  function Concat(chunks: seq<seq<Byte>>): seq<Byte> {
    if chunks == [] then [] else chunks[0] + Concat(chunks[1..])
  }

  lemma {:induction false} FeedAllLast(boundary: seq<Byte>, r: Run, s: seq<Byte>, c: Byte)
    requires Ready(boundary, r.st) && FeedAll(boundary, r, s).Some?
    ensures FeedAll(boundary, r, s + [c]) == Feed(boundary, FeedAll(boundary, r, s).value, c)
    decreases |s|
  {
    if s == [] {
      assert (s + [c])[1..] == [];
    } else {
      FeedAllLast(boundary, Feed(boundary, r, s[0]).value, s[1..], c);
      assert (s + [c])[1..] == s[1..] + [c];
    }
  }

  lemma {:induction false} FeedAllAppend(boundary: seq<Byte>, r: Run, a: seq<Byte>, b: seq<Byte>)
    requires Ready(boundary, r.st)
    ensures var u := FeedAll(boundary, r, a);
            FeedAll(boundary, r, a + b) == if u.None? then None else FeedAll(boundary, u.value, b)
    decreases |a|
  {
    if a == [] {
      assert a + b == b;
    } else {
      assert (a + b)[0] == a[0] && (a + b)[1..] == a[1..] + b;
      var u := Feed(boundary, r, a[0]);
      if u.Some? { FeedAllAppend(boundary, u.value, a[1..], b); }
    }
  }
}
