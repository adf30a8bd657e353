/** http/multipart_parser.c: the parser as it runs over a buffer, with its own small lookbehind buffer. */
module MultipartParser {
  import opened MultipartSpec

  /** What the parser leaves behind when it gives up on a byte: two states change before the byte is looked at. */
  function Stuck(st: St): St {
    if st.mode.Start? then St(StartBoundary, 0) else if st.mode.FieldStart? then St(Field, st.index) else st
  }

  /** The bytes between `mark` and `i` that are still to be handed over. */
  function Waiting(mode: Mode, s: seq<Byte>): seq<Out> {
    match mode
    case Field => seq(|s|, i requires 0 <= i < |s| => FieldByte(s[i]))
    case Value => seq(|s|, i requires 0 <= i < |s| => ValueByte(s[i]))
    case PartData => Parts(s)
    case _ => []
  }

  lemma FedNothing(boundary: seq<Byte>, r: Run)
    requires Ready(boundary, r.st)
    ensures FeedAll(boundary, r, []) == Some(r)
  {
  }

  lemma CallIs(boundary: seq<Byte>, st: St, s: seq<Byte>)
    requires Ready(boundary, st)
    ensures var u := FeedAll(boundary, Run(st, [], []), s);
            Call(boundary, st, s) == if u.None? then None else Some(Flush(u.value))
  {
  }

  lemma DataIsTaken(boundary: seq<Byte>, r: Run, c: Byte)
    requires Ready(boundary, r.st)
    ensures r.st.mode.PartData? ==> Feed(boundary, r, c).Some?
  {
  }

  lemma NothingWaits(mode: Mode, buf: seq<Byte>)
    ensures buf[..0] == [] && Waiting(mode, buf[0..0]) == []
  {
  }

  class Parser {
    const boundary: seq<Byte>
    const lookbehind: array<Byte>
    var mode: Mode
    var index: nat
    /** What the callbacks got, byte by byte. */
    var trace: seq<Out>

    /** multipart_parser_init. */
    constructor (boundary: seq<Byte>)
      requires |boundary| > 0
      ensures Valid() && this.boundary == boundary && St(mode, index) == St(Start, 0) && trace == [] && fresh(lookbehind)
    {
      this.boundary := boundary;
      lookbehind := new Byte[|boundary| + 2];
      mode, index, trace := Start, 0, [];
    }

    ghost predicate Valid()
      reads this, lookbehind
    {
      && Ready(boundary, St(mode, index)) && lookbehind.Length == |boundary| + 2
      && (mode.AlmostBoundary? ==> lookbehind[0] == CR)
      && (mode.Boundary? ==> lookbehind[..index + 2] == [CR, LF] + boundary[..index])
    }

    /** multipart_parser_execute, with callbacks that all return 0. */
    method Execute(buf: seq<Byte>) returns (n: nat)
      requires Valid()
      modifies this, lookbehind
      ensures n <= |buf| && (n == |buf| ==> Valid())
      ensures var r := FeedAll(boundary, Run(old(St(mode, index)), [], []), buf[..n]);
              && r.Some?
              && (n == |buf| ==> Call(boundary, old(St(mode, index)), buf) == Some(Run(St(mode, index), r.value.out + r.value.pend, []))
                                 && trace == old(trace) + r.value.out + r.value.pend)
              && (n < |buf| ==> Feed(boundary, r.value, buf[n]).None?
                                && trace == old(trace) + r.value.out && St(mode, index) == Stuck(r.value.st))
    {
      hide Feed, FeedAll, Call, Waiting;
      ghost var r0 := Run(St(mode, index), [], []);
      FedNothing(boundary, r0);
      CallIs(boundary, r0.st, buf);
      NothingWaits(mode, buf);
      ghost var base, r, t0 := r0, r0, trace;
      var mark := 0;
      n := 0;
      while n < |buf|
        invariant 0 <= n <= |buf| && Valid() && At(buf, n, mark, r, t0)
        invariant FeedAll(boundary, r0, buf[..n]) == Some(base) && (r == base || (n < |buf| && r.st.mode.PartData?))
        invariant n < |buf| ==> Feed(boundary, base, buf[n]) == Feed(boundary, r, buf[n])
        decreases |buf| - n, if mode.PartData? then 0 else 1
      {
        var ok, i;
        ghost var u;
        DataIsTaken(boundary, r, buf[n]);
        ok, i, mark, u := Advance(buf, n, mark, r, t0);
        if !ok { return; }
        if i > n {
          FeedAllLast(boundary, r0, buf[..n], buf[n]);
          assert buf[..i] == buf[..n] + [buf[n]];
          base := u;
        }
        n := i;
        r := u;
      }
      assert buf[..n] == buf;
    }

    /** The parser before byte `i` of a call: `r` says what it did so far; after the last byte nothing waits. */
    ghost predicate At(buf: seq<Byte>, i: nat, mark: nat, r: Run, t0: seq<Out>)
      reads this
    {
      && mark <= i <= |buf| && r.st == St(mode, index)
      && r.pend == Waiting(mode, buf[mark..i])
      && trace == t0 + r.out + if i == |buf| then r.pend else []
    }

    /** What one round of the loop does with byte `i`: takes it, refuses it, or puts it off to the next round,
        after the bytes held back turned out to be data. */
    ghost predicate Advanced(buf: seq<Byte>, i: nat, r: Run, t0: seq<Out>, ok: bool, j: nat, mark: nat, u: Run)
      requires Ready(boundary, r.st) && i < |buf|
      reads this, lookbehind
    {
      var t := Feed(boundary, r, buf[i]);
      if !ok then t.None? && trace == t0 + r.out && St(mode, index) == Stuck(r.st)
      else
        && Valid() && At(buf, j, mark, u, t0)
        && if j == i + 1 then t == Some(u)
           else j == i && u.st.mode.PartData? && !r.st.mode.PartData? && Feed(boundary, u, buf[i]) == t
    }

    /** One round of the loop. */
    method Advance(buf: seq<Byte>, i: nat, mark0: nat, ghost r: Run, ghost t0: seq<Out>)
      returns (ok: bool, j: nat, mark: nat, ghost u: Run)
      requires Valid() && i < |buf| && At(buf, i, mark0, r, t0)
      modifies this, lookbehind
      ensures Advanced(buf, i, r, t0, ok, j, mark, u)
    {
      hide Feed, Advanced;
      if mode.Start? || mode.StartBoundary? {
        ok, u := OnStart(buf, i, mark0, r, t0);
        j, mark := i + 1, mark0;
      } else if mode.FieldStart? || mode.Field? {
        ok, mark, u := OnField(buf, i, mark0, r, t0);
        j := i + 1;
      } else if mode.ValueStart? || mode.Value? {
        mark, u := OnValue(buf, i, mark0, r, t0);
        ok, j := true, i + 1;
      } else if mode.PartStart? || mode.PartData? {
        mark, u := OnPart(buf, i, mark0, r, t0);
        ok, j := true, i + 1;
      } else if mode.AlmostBoundary? {
        j, mark, u := OnAlmostBoundary(buf, i, mark0, r, t0);
        ok := true;
      } else if mode.Boundary? {
        j, mark, u := OnBoundary(buf, i, mark0, r, t0);
        ok := true;
      } else {
        ok, u := OnMark(buf, i, mark0, r, t0);
        j, mark := i + 1, mark0;
      }
    }

    /** States s_start and s_start_boundary. */
    method OnStart(buf: seq<Byte>, i: nat, ghost mark: nat, ghost r: Run, ghost t0: seq<Out>) returns (ok: bool, ghost u: Run)
      requires Valid() && i < |buf| && At(buf, i, mark, r, t0) && (mode.Start? || mode.StartBoundary?)
      modifies this
      ensures Advanced(buf, i, r, t0, ok, i + 1, mark, u)
    {
      var c := buf[i];
      u := r;
      if mode.Start? {
        index := 0;
        mode := StartBoundary;
      }
      if index == |boundary| {
        if c != CR { return false, u; }
        index := index + 1;
      } else if index == |boundary| + 1 {
        if c != LF { return false, u; }
        index := 0;
        trace := trace + [OnPartBegin];
        mode := FieldStart;
      } else {
        if c != boundary[index] { return false, u; }
        index := index + 1;
      }
      ok, u := true, Feed(boundary, r, c).value;
    }

    /** States s_header_field_start and s_header_field. */
    method OnField(buf: seq<Byte>, i: nat, mark0: nat, ghost r: Run, ghost t0: seq<Out>) returns (ok: bool, mark: nat, ghost u: Run)
      requires Valid() && i < |buf| && At(buf, i, mark0, r, t0) && (mode.FieldStart? || mode.Field?)
      modifies this
      ensures Advanced(buf, i, r, t0, ok, i + 1, mark, u)
    {
      var c := buf[i];
      u, mark := r, mark0;
      if mode.FieldStart? {
        mark := i;
        mode := Field;
      }
      ghost var w := Waiting(Field, buf[mark..i]);
      if c == CR {
        mode := HeadersAlmostDone;
      } else if c == COLON {
        trace := trace + Waiting(Field, buf[mark..i]) + [OnName];
        mode := ValueStart;
      } else {
        if !FieldChar(c) { return false, mark, u; }
        if i == |buf| - 1 { trace := trace + Waiting(Field, buf[mark..i + 1]); }
        WaitingMore(Field, buf, mark, i);
      }
      ok, u := true, Feed(boundary, r, c).value;
    }

    /** States s_header_value_start and s_header_value. */
    method OnValue(buf: seq<Byte>, i: nat, mark0: nat, ghost r: Run, ghost t0: seq<Out>) returns (mark: nat, ghost u: Run)
      requires Valid() && i < |buf| && At(buf, i, mark0, r, t0) && (mode.ValueStart? || mode.Value?)
      modifies this
      ensures Advanced(buf, i, r, t0, true, i + 1, mark, u)
    {
      var c := buf[i];
      mark, u := mark0, Feed(boundary, r, c).value;
      if mode.ValueStart? {
        if c == SPACE { return; }
        mark := i;
        mode := Value;
      }
      if c == CR {
        trace := trace + Waiting(Value, buf[mark..i]);
        mode := ValueAlmostDone;
      } else {
        if i == |buf| - 1 { trace := trace + Waiting(Value, buf[mark..i + 1]); }
        WaitingMore(Value, buf, mark, i);
      }
    }

    /** States s_part_data_start and s_part_data. */
    method OnPart(buf: seq<Byte>, i: nat, mark0: nat, ghost r: Run, ghost t0: seq<Out>) returns (mark: nat, ghost u: Run)
      requires Valid() && i < |buf| && At(buf, i, mark0, r, t0) && (mode.PartStart? || mode.PartData?)
      modifies this, lookbehind
      ensures Advanced(buf, i, r, t0, true, i + 1, mark, u)
    {
      var c := buf[i];
      mark, u := mark0, Feed(boundary, r, c).value;
      if mode.PartStart? {
        trace := trace + [OnHeadersComplete];
        mark := i;
        mode := PartData;
      }
      if c == CR {
        trace := trace + Waiting(PartData, buf[mark..i]);
        mark := i;
        mode := AlmostBoundary;
        lookbehind[0] := CR;
      } else {
        if i == |buf| - 1 { trace := trace + Waiting(PartData, buf[mark..i + 1]); }
        WaitingMore(PartData, buf, mark, i);
      }
    }

    /** State s_part_data_almost_boundary: the CR may belong to a boundary, or turn out to be data. */
    method OnAlmostBoundary(buf: seq<Byte>, i: nat, mark0: nat, ghost r: Run, ghost t0: seq<Out>) returns (j: nat, mark: nat, ghost u: Run)
      requires Valid() && i < |buf| && At(buf, i, mark0, r, t0) && mode.AlmostBoundary?
      modifies this, lookbehind
      ensures Advanced(buf, i, r, t0, true, j, mark, u)
    {
      if buf[i] == LF {
        j, mark, u := i + 1, mark0, Feed(boundary, r, buf[i]).value;
        mode := Boundary;
        lookbehind[1] := LF;
        index := 0;
      } else {
        assert Parts(lookbehind[..1]) == [PartByte(CR)];
        trace := trace + Parts(lookbehind[..1]);
        mode := PartData;
        mark, j := i, i;
        u := Emit(r, [PartByte(CR)]).(st := St(PartData, index));
      }
    }

    /** State s_part_data_boundary: the bytes so far, kept in the lookbehind buffer, match the boundary. */
    method OnBoundary(buf: seq<Byte>, i: nat, mark0: nat, ghost r: Run, ghost t0: seq<Out>) returns (j: nat, mark: nat, ghost u: Run)
      requires Valid() && i < |buf| && At(buf, i, mark0, r, t0) && mode.Boundary?
      modifies this, lookbehind
      ensures Advanced(buf, i, r, t0, true, j, mark, u)
    {
      if boundary[index] != buf[i] {
        trace := trace + Parts(lookbehind[..2 + index]);
        mode := PartData;
        mark, j := i, i;
        u := Emit(r, Parts([CR, LF] + boundary[..index])).(st := St(PartData, index));
      } else {
        j, mark, u := i + 1, mark0, Feed(boundary, r, buf[i]).value;
        lookbehind[2 + index] := buf[i];
        assert lookbehind[..2 + index + 1] == lookbehind[..2 + index] + [buf[i]];
        index := index + 1;
        if index == |boundary| {
          trace := trace + [OnPartEnd];
          mode := AlmostEnd;
        }
      }
    }

    /** The states that wait for one particular byte, and the end. */
    method OnMark(buf: seq<Byte>, i: nat, ghost mark: nat, ghost r: Run, ghost t0: seq<Out>) returns (ok: bool, ghost u: Run)
      requires Valid() && i < |buf| && At(buf, i, mark, r, t0)
      requires mode in {HeadersAlmostDone, ValueAlmostDone, AlmostEnd, FinalHyphen, PartEnd, End}
      modifies this
      ensures Advanced(buf, i, r, t0, ok, i + 1, mark, u)
    {
      var c := buf[i];
      u := r;
      match mode {
      case HeadersAlmostDone =>
        if c != LF { return false, u; }
        mode := PartStart;
      case ValueAlmostDone =>
        if c != LF { return false, u; }
        mode := FieldStart;
      case AlmostEnd =>
        if c == HYPHEN { mode := FinalHyphen; }
        else if c == CR { mode := PartEnd; }
        else { return false, u; }
      case FinalHyphen =>
        if c != HYPHEN { return false, u; }
        trace := trace + [OnBodyEnd];
        mode := End;
      case PartEnd =>
        if c != LF { return false, u; }
        mode := FieldStart;
        trace := trace + [OnPartBegin];
      case _ =>
      }
      ok, u := true, Feed(boundary, r, c).value;
    }
  }

  lemma WaitingMore(mode: Mode, buf: seq<Byte>, mark: nat, i: nat)
    requires mark <= i < |buf| && (mode.Field? || mode.Value? || mode.PartData?)
    ensures Waiting(mode, buf[mark..i + 1]) == Waiting(mode, buf[mark..i]) +
              [if mode.Field? then FieldByte(buf[i]) else if mode.Value? then ValueByte(buf[i]) else PartByte(buf[i])]
  {
  }
}
