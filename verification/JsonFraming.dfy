/** The request framing of `handle_connection`: bytes arrive in arbitrary reads, and a small
    automaton decides after each read whether the JSON text received so far is complete. */
module JsonFraming {
  import opened Basics

  const MAX_REQUEST_SIZE: nat := 1024 * 1024

  const QUOTE: byte := 0x22
  const COMMA: byte := 0x2C
  const COLON: byte := 0x3A
  const BACKSLASH: byte := 0x5C
  const LBRACKET: byte := 0x5B
  const RBRACKET: byte := 0x5D
  const LBRACE: byte := 0x7B
  const RBRACE: byte := 0x7D

  newtype int32 = x: int | -0x8000_0000 <= x < 0x8000_0000

  // ---------------------------------------------------------------- the automaton

  datatype Scan = Scan(depth: int, inString: bool, escape: bool, started: bool)

  const FRESH := Scan(0, false, false, false)

  function Feed(s: Scan, b: byte): Scan {
    if s.escape then s.(escape := false)
    else if b == BACKSLASH && s.inString then s.(escape := true)
    else if b == QUOTE then s.(inString := !s.inString)
    else if s.inString then s
    else if b == LBRACE || b == LBRACKET then s.(depth := s.depth + 1, started := true)
    else if b == RBRACE || b == RBRACKET then s.(depth := s.depth - 1)
    else s
  }

  function Run(s: Scan, bs: seq<byte>): Scan
    decreases bs
  {
    if bs == [] then s else Run(Feed(s, bs[0]), bs[1..])
  }

  predicate Done(s: Scan) {
    s.started && s.depth == 0
  }

  lemma {:induction false} RunConcat(s: Scan, a: seq<byte>, b: seq<byte>)
    ensures Run(s, a + b) == Run(Run(s, a), b)
    decreases a
  {
    if a == [] {
      assert a + b == b;
    } else {
      assert (a + b)[1..] == a[1..] + b;
      RunConcat(Feed(s, a[0]), a[1..], b);
    }
  }

  lemma {:induction false} DepthBound(s: Scan, bs: seq<byte>)
    ensures s.depth - |bs| <= Run(s, bs).depth <= s.depth + |bs|
    decreases bs
  {
    if bs == [] {
    } else {
      DepthBound(Feed(s, bs[0]), bs[1..]);
    }
  }

  // ---------------------------------------------------------------- the read loop

  /** What one `stream.read` yields; `Data([])` is the end of the stream. */
  datatype ReadEvent = Data(bytes: seq<byte>) | Timeout | IoError

  /** `Waiting` when the given reads do not yet end the loop, `Silent` when it ended with no byte. */
  datatype Framing = Waiting | Dispatch(payload: seq<byte>) | Silent | TooLarge | Failed

  function Received(events: seq<ReadEvent>): seq<byte> {
    if events == [] then []
    else
      var last := events[|events| - 1];
      Received(events[..|events| - 1]) + (if last.Data? then last.bytes else [])
  }

  /** The loop is still reading after the first `k` events. */
  ghost predicate StillReading(events: seq<ReadEvent>, k: nat)
    requires k <= |events|
  {
    && (forall j :: 0 <= j < k ==> events[j].Data? && events[j].bytes != [])
    && (forall j :: 0 <= j <= k ==> |Received(events[..j])| <= MAX_REQUEST_SIZE)
    && (forall j :: 0 <= j <= k ==> !Done(Run(FRESH, Received(events[..j]))))
  }

  /** What the loop does at an event that ends it, given all bytes up to and with that event. */
  function Verdict(event: ReadEvent, bytes: seq<byte>): Framing {
    if event.IoError? then Failed
    else if event.Data? && |bytes| > MAX_REQUEST_SIZE then TooLarge
    else if bytes == [] then Silent
    else Dispatch(bytes)
  }

  /** The loop events on through the first `stop` events and event `stop`, if there is one, ends it. */
  ghost predicate Framed(events: seq<ReadEvent>, stop: nat, outcome: Framing) {
    && stop <= |events|
    && StillReading(events, stop)
    && if stop == |events| then outcome == Waiting
       else !StillReading(events, stop + 1) && outcome == Verdict(events[stop], Received(events[..stop + 1]))
  }

  /** Scans one chunk; `before` is all that was scanned earlier. */
  method ScanChunk(chunk: seq<byte>, depth: int32, inString0: bool, escape0: bool, started: bool,
                   ghost before: seq<byte>)
    returns (braceDepth: int32, inString: bool, escape: bool, jsonStarted: bool)
    requires Scan(depth as int, inString0, escape0, started) == Run(FRESH, before)
    requires |before + chunk| <= MAX_REQUEST_SIZE
    ensures Scan(braceDepth as int, inString, escape, jsonStarted) == Run(FRESH, before + chunk)
  {
    braceDepth, inString, escape, jsonStarted := depth, inString0, escape0, started;
    var i := 0;
    assert before + chunk[..0] == before;
    while i < |chunk|
      invariant 0 <= i <= |chunk|
      invariant Scan(braceDepth as int, inString, escape, jsonStarted) == Run(FRESH, before + chunk[..i])
    {
      var b := chunk[i];
      DepthBound(FRESH, before + chunk[..i]);
      RunConcat(FRESH, before + chunk[..i], [b]);
      assert before + chunk[..i] + [b] == before + chunk[..i + 1];
      if escape {
        escape := false;
      } else if b == BACKSLASH && inString {
        escape := true;
      } else if b == QUOTE {
        inString := !inString;
      } else if inString {
      } else if b == LBRACE || b == LBRACKET {
        braceDepth := braceDepth + 1;
        jsonStarted := true;
      } else if b == RBRACE || b == RBRACKET {
        braceDepth := braceDepth - 1;
      }
      i := i + 1;
    }
    assert chunk[..i] == chunk;
  }

  lemma NothingReceived(events: seq<ReadEvent>)
    ensures Received(events[..0]) == [] && Run(FRESH, []) == FRESH
  {}

  lemma ReceivedStep(events: seq<ReadEvent>, k: nat)
    requires k < |events|
    ensures Received(events[..k + 1]) == Received(events[..k]) + (if events[k].Data? then events[k].bytes else [])
  {
    assert events[..k + 1][..k] == events[..k];
  }

  method ReadRequest(events: seq<ReadEvent>) returns (outcome: Framing, stop: nat)
    ensures Framed(events, stop, outcome)
  {
    hide Run, Received;
    var payload: seq<byte> := [];
    var braceDepth: int32 := 0;
    var inString, escape, jsonStarted := false, false, false;
    stop := 0;
    NothingReceived(events);
    while stop < |events|
      invariant 0 <= stop <= |events|
      invariant payload == Received(events[..stop]) && |payload| <= MAX_REQUEST_SIZE
      invariant Scan(braceDepth as int, inString, escape, jsonStarted) == Run(FRESH, payload)
      invariant StillReading(events, stop)
    {
      ReceivedStep(events, stop);
      match events[stop] {
        case IoError => return Failed, stop;
        case Timeout => break;
        case Data(chunk) =>
          if chunk == [] { break; }
          ghost var before := payload;
          payload := payload + chunk;
          if |payload| > MAX_REQUEST_SIZE { return TooLarge, stop; }
          braceDepth, inString, escape, jsonStarted :=
            ScanChunk(chunk, braceDepth, inString, escape, jsonStarted, before);
          if jsonStarted && braceDepth == 0 {
            return Dispatch(payload), stop;
          }
          stop := stop + 1;
      }
    }
    if stop == |events| { return Waiting, stop; }
    outcome := if payload == [] then Silent else Dispatch(payload);
  }

  /** The events determine where the loop stops and with what. */
  lemma FramedIsUnique(events: seq<ReadEvent>, s1: nat, o1: Framing, s2: nat, o2: Framing)
    requires Framed(events, s1, o1) && Framed(events, s2, o2)
    ensures s1 == s2 && o1 == o2
  {
    if s1 < s2 {
      assert StillReading(events, s1 + 1);
    } else if s2 < s1 {
      assert StillReading(events, s2 + 1);
    }
  }

  /** How the loop ends, said of the event that ends it: a timeout or the end of the stream hands over all that was
      received, if anything was; bytes beyond 1 MiB, or an error, hand over nothing. */
  lemma EndsByEvent(events: seq<ReadEvent>, stop: nat, outcome: Framing)
    requires Framed(events, stop, outcome)
    ensures forall j :: 0 <= j < stop ==> events[j].Data? && events[j].bytes != []
    ensures forall j :: 0 <= j <= stop ==>
      |Received(events[..j])| <= 1048576 && !Done(Run(FRESH, Received(events[..j])))
    ensures stop == |events| ==> outcome == Waiting
    ensures stop < |events| ==>
      var so := Received(events[..stop]);
      match events[stop]
      case IoError => outcome == Failed
      case Timeout => outcome == if so == [] then Silent else Dispatch(so)
      case Data(bytes) =>
        if bytes == [] then outcome == if so == [] then Silent else Dispatch(so)
        else if |so + bytes| > 1048576 then outcome == TooLarge
        else Done(Run(FRESH, so + bytes)) && outcome == Dispatch(so + bytes)
  {
    hide Run, Received, Done;
    if stop < |events| {
      ReceivedStep(events, stop);
      StillReadingStep(events, stop);
    }
  }

  lemma StillReadingStep(events: seq<ReadEvent>, k: nat)
    requires k < |events| && StillReading(events, k)
    ensures StillReading(events, k + 1) <==>
      && events[k].Data? && events[k].bytes != []
      && |Received(events[..k + 1])| <= MAX_REQUEST_SIZE && !Done(Run(FRESH, Received(events[..k + 1])))
  {
    hide Run, Received, Done;
  }

  // ---------------------------------------------------------------- JSON texts

  /** A parse tree of a JSON text (RFC 8259), with its whitespace and the spelling of its strings. */
  datatype Json =
    | Atom(token: seq<byte>)                       // true, false, null and the numbers
    | Text(chars: seq<StrChar>)
    | Arr(pad: seq<byte>, elems: Elems)            // pad: the whitespace of an empty array
    | Obj(pad: seq<byte>, members: Members)

  datatype Elems = NoElem | Elem(before: seq<byte>, value: Json, after: seq<byte>, rest: Elems)

  datatype Members =
    | NoMember
    | Member(before: seq<byte>, key: seq<StrChar>, mid1: seq<byte>, mid2: seq<byte>,
             value: Json, after: seq<byte>, rest: Members)

  /** One character of a string: a byte standing for itself, a two-byte escape, or `\uXXXX`. */
  datatype StrChar = Plain(b: byte) | Escape(code: byte) | Unicode(h1: byte, h2: byte, h3: byte, h4: byte)

  predicate IsSpace(b: byte) { b == 0x20 || b == 0x09 || b == 0x0A || b == 0x0D }

  predicate Spaces(bs: seq<byte>) { forall i :: 0 <= i < |bs| ==> IsSpace(bs[i]) }

  predicate IsHex(b: byte) { 0x30 <= b <= 0x39 || 0x41 <= b <= 0x46 || 0x61 <= b <= 0x66 }

  /** Letters, digits, plus, minus and dot: the bytes that literals and numbers are made of. */
  predicate IsAtomByte(b: byte) {
    0x30 <= b <= 0x39 || 0x41 <= b <= 0x5A || 0x61 <= b <= 0x7A || b == 0x2B || b == 0x2D || b == 0x2E
  }

  predicate CharOk(c: StrChar) {
    match c
    case Plain(b) => b >= 0x20 && b != QUOTE && b != BACKSLASH
    case Escape(e) => e in [QUOTE, BACKSLASH, 0x2F, 0x62, 0x66, 0x6E, 0x72, 0x74]
    case Unicode(a, b, c, d) => IsHex(a) && IsHex(b) && IsHex(c) && IsHex(d)
  }

  predicate CharsOk(cs: seq<StrChar>) { forall i :: 0 <= i < |cs| ==> CharOk(cs[i]) }

  predicate WellFormed(v: Json) {
    match v
    case Atom(t) => t != [] && forall i :: 0 <= i < |t| ==> IsAtomByte(t[i])
    case Text(cs) => CharsOk(cs)
    case Arr(pad, es) => Spaces(pad) && ElemsOk(es)
    case Obj(pad, ms) => Spaces(pad) && MembersOk(ms)
  }

  predicate ElemsOk(es: Elems) {
    match es
    case NoElem => true
    case Elem(b, v, a, rest) => Spaces(b) && WellFormed(v) && Spaces(a) && ElemsOk(rest)
  }

  predicate MembersOk(ms: Members) {
    match ms
    case NoMember => true
    case Member(b, k, m1, m2, v, a, rest) =>
      Spaces(b) && CharsOk(k) && Spaces(m1) && Spaces(m2) && WellFormed(v) && Spaces(a) && MembersOk(rest)
  }

  function PrintChar(c: StrChar): seq<byte> {
    match c
    case Plain(b) => [b]
    case Escape(e) => [BACKSLASH, e]
    case Unicode(a, b, c, d) => [BACKSLASH, 0x75, a, b, c, d]
  }

  function PrintChars(cs: seq<StrChar>): seq<byte> {
    if cs == [] then [] else PrintChar(cs[0]) + PrintChars(cs[1..])
  }

  function PrintString(cs: seq<StrChar>): seq<byte> {
    [QUOTE] + PrintChars(cs) + [QUOTE]
  }

  function Print(v: Json): seq<byte> {
    match v
    case Atom(t) => t
    case Text(cs) => PrintString(cs)
    case Arr(pad, es) => [LBRACKET] + (if es.NoElem? then pad else PrintElems(es)) + [RBRACKET]
    case Obj(pad, ms) => [LBRACE] + (if ms.NoMember? then pad else PrintMembers(ms)) + [RBRACE]
  }

  function PrintElems(es: Elems): seq<byte> {
    match es
    case NoElem => []
    case Elem(b, v, a, rest) =>
      b + Print(v) + a + (if rest.NoElem? then [] else [COMMA] + PrintElems(rest))
  }

  function PrintMembers(ms: Members): seq<byte> {
    match ms
    case NoMember => []
    case Member(b, k, m1, m2, v, a, rest) =>
      b + PrintString(k) + m1 + [COLON] + m2 + Print(v) + a
      + (if rest.NoMember? then [] else [COMMA] + PrintMembers(rest))
  }

  // ---------------------------------------------------------------- scanning a printed text

  /** From `s` to the end of `bs` the depth never falls below `floor`. */
  ghost predicate Above(s: Scan, bs: seq<byte>, floor: int)
    decreases bs
  {
    s.depth >= floor && (bs == [] || Above(Feed(s, bs[0]), bs[1..], floor))
  }

  predicate Between(s: Scan) { !s.inString && !s.escape }

  /** `bs` leads from `s` to `t` and never below the depth of `s`. */
  ghost predicate Leads(s: Scan, bs: seq<byte>, t: Scan) {
    Run(s, bs) == t && Above(s, bs, s.depth)
  }

  lemma {:induction false} AboveConcat(s: Scan, a: seq<byte>, b: seq<byte>, floor: int)
    requires Above(s, a, floor) && Above(Run(s, a), b, floor)
    ensures Above(s, a + b, floor)
    decreases a
  {
    if a == [] {
      assert a + b == b;
    } else {
      assert (a + b)[1..] == a[1..] + b;
      AboveConcat(Feed(s, a[0]), a[1..], b, floor);
    }
  }

  lemma LeadsConcat(s: Scan, a: seq<byte>, t: Scan, b: seq<byte>, u: Scan)
    requires Leads(s, a, t) && Leads(t, b, u) && s.depth == t.depth
    ensures Leads(s, a + b, u)
  {
    RunConcat(s, a, b);
    AboveConcat(s, a, b, s.depth);
  }

  lemma {:induction false} AbovePrefix(s: Scan, bs: seq<byte>, floor: int, k: nat)
    requires Above(s, bs, floor) && k <= |bs|
    ensures Run(s, bs[..k]).depth >= floor
    decreases k
  {
    if k == 0 {
    } else {
      assert bs[..k][1..] == bs[1..][..k - 1];
      AbovePrefix(Feed(s, bs[0]), bs[1..], floor, k - 1);
    }
  }

  /** Bytes outside strings that are neither brackets nor quotes leave the automaton where it is. */
  lemma {:induction false} NeutralBytes(s: Scan, bs: seq<byte>)
    requires Between(s)
    requires forall i :: 0 <= i < |bs| ==> bs[i] !in [QUOTE, LBRACE, RBRACE, LBRACKET, RBRACKET]
    ensures Leads(s, bs, s)
    decreases bs
  {
    if bs == [] {
    } else {
      NeutralBytes(s, bs[1..]);
    }
  }

  lemma EscapePair(s: Scan, e: byte)
    requires s.inString && !s.escape
    ensures Leads(s, [BACKSLASH, e], s)
  {
    var escaped := s.(escape := true);
    LeadsConcat(s, [BACKSLASH], escaped, [e], s);
    assert [BACKSLASH, e] == [BACKSLASH] + [e];
  }

  lemma {:induction false} CharsStayInside(s: Scan, cs: seq<StrChar>)
    requires s.inString && !s.escape && CharsOk(cs)
    ensures Leads(s, PrintChars(cs), s)
    decreases cs
  {
    if cs == [] {
    } else {
      var c := cs[0];
      assert CharOk(c);
      assert Leads(s, PrintChar(c), s) by {
        match c
        case Plain(b) =>
        case Escape(e) => EscapePair(s, e);
        case Unicode(h1, h2, h3, h4) =>
          assert Leads(s, [h4], s);
          LeadsConcat(s, [h3], s, [h4], s);
          LeadsConcat(s, [h2], s, [h3] + [h4], s);
          LeadsConcat(s, [h1], s, [h2] + ([h3] + [h4]), s);
          EscapePair(s, 0x75);
          LeadsConcat(s, [BACKSLASH, 0x75], s, [h1] + ([h2] + ([h3] + [h4])), s);
          assert PrintChar(c) == [BACKSLASH, 0x75] + ([h1] + ([h2] + ([h3] + [h4])));
      }
      CharsStayInside(s, cs[1..]);
      LeadsConcat(s, PrintChar(c), s, PrintChars(cs[1..]), s);
    }
  }

  lemma StringReturns(s: Scan, cs: seq<StrChar>)
    requires Between(s) && CharsOk(cs)
    ensures Leads(s, PrintString(cs), s)
  {
    var inside := s.(inString := true);
    assert Leads(s, [QUOTE], inside);
    CharsStayInside(inside, cs);
    LeadsConcat(s, [QUOTE], inside, PrintChars(cs), inside);
    assert Leads(inside, [QUOTE], s);
    LeadsConcat(s, [QUOTE] + PrintChars(cs), inside, [QUOTE], s);
  }

  predicate Container(v: Json) { v.Arr? || v.Obj? }

  /** A bracketed text goes up by one, stays there and comes back. */
  lemma BracketReturns(s: Scan, open: byte, inner: seq<byte>, close: byte)
    requires Between(s) && open in [LBRACE, LBRACKET] && close in [RBRACE, RBRACKET]
    requires var up := s.(depth := s.depth + 1, started := true); Leads(up, inner, up)
    ensures Leads(s, [open] + inner + [close], s.(started := true))
  {
    var up := s.(depth := s.depth + 1, started := true);
    RunConcat(s, [open] + inner, [close]);
    RunConcat(s, [open], inner);
    AboveWeaken(up, inner, up.depth, s.depth);
    AboveConcat(s, [open], inner, s.depth);
    AboveConcat(s, [open] + inner, [close], s.depth);
  }

  lemma {:induction false} AboveWeaken(s: Scan, bs: seq<byte>, hi: int, lo: int)
    requires Above(s, bs, hi) && lo <= hi
    ensures Above(s, bs, lo)
    decreases bs
  {
    if bs == [] {
    } else {
      AboveWeaken(Feed(s, bs[0]), bs[1..], hi, lo);
    }
  }

  function After(s: Scan, v: Json): Scan {
    s.(started := s.started || Container(v))
  }

  lemma {:induction false} ValueReturns(s: Scan, v: Json)
    requires Between(s) && WellFormed(v)
    ensures Leads(s, Print(v), After(s, v))
    decreases v
  {
    match v
    case Atom(t) => NeutralBytes(s, t);
    case Text(cs) => StringReturns(s, cs);
    case Arr(pad, es) =>
      var up := s.(depth := s.depth + 1, started := true);
      if es.NoElem? { NeutralBytes(up, pad); } else { ElemsReturn(up, es); }
      BracketReturns(s, LBRACKET, if es.NoElem? then pad else PrintElems(es), RBRACKET);
    case Obj(pad, ms) =>
      var up := s.(depth := s.depth + 1, started := true);
      if ms.NoMember? { NeutralBytes(up, pad); } else { MembersReturn(up, ms); }
      BracketReturns(s, LBRACE, if ms.NoMember? then pad else PrintMembers(ms), RBRACE);
  }

  lemma {:induction false} ElemsReturn(s: Scan, es: Elems)
    requires Between(s) && s.started && ElemsOk(es)
    ensures Leads(s, PrintElems(es), s)
    decreases es
  {
    hide Leads;
    match es
    case NoElem => NeutralBytes(s, []);
    case Elem(b, v, a, rest) =>
      NeutralBytes(s, b);
      ValueReturns(s, v);
      LeadsConcat(s, b, s, Print(v), s);
      NeutralBytes(s, a);
      LeadsConcat(s, b + Print(v), s, a, s);
      if !rest.NoElem? {
        NeutralBytes(s, [COMMA]);
        ElemsReturn(s, rest);
        LeadsConcat(s, [COMMA], s, PrintElems(rest), s);
        LeadsConcat(s, b + Print(v) + a, s, [COMMA] + PrintElems(rest), s);
      } else {
        assert b + Print(v) + a + [] == b + Print(v) + a;
      }
  }

  lemma {:induction false} MembersReturn(s: Scan, ms: Members)
    requires Between(s) && s.started && MembersOk(ms)
    ensures Leads(s, PrintMembers(ms), s)
    decreases ms
  {
    hide Leads;
    match ms
    case NoMember => NeutralBytes(s, []);
    case Member(b, k, m1, m2, v, a, rest) =>
      NeutralBytes(s, b);
      StringReturns(s, k);
      NeutralBytes(s, m1);
      NeutralBytes(s, [COLON]);
      NeutralBytes(s, m2);
      ValueReturns(s, v);
      NeutralBytes(s, a);
      LeadsConcat(s, b, s, PrintString(k), s);
      LeadsConcat(s, b + PrintString(k), s, m1, s);
      LeadsConcat(s, b + PrintString(k) + m1, s, [COLON], s);
      LeadsConcat(s, b + PrintString(k) + m1 + [COLON], s, m2, s);
      LeadsConcat(s, b + PrintString(k) + m1 + [COLON] + m2, s, Print(v), s);
      LeadsConcat(s, b + PrintString(k) + m1 + [COLON] + m2 + Print(v), s, a, s);
      var all := b + PrintString(k) + m1 + [COLON] + m2 + Print(v) + a;
      if !rest.NoMember? {
        NeutralBytes(s, [COMMA]);
        MembersReturn(s, rest);
        LeadsConcat(s, [COMMA], s, PrintMembers(rest), s);
        LeadsConcat(s, all, s, [COMMA] + PrintMembers(rest), s);
      } else {
        assert all + [] == all;
      }
  }

  // ---------------------------------------------------------------- exactness

  /** Inside a bracketed text, strictly between its first and its last byte, the depth is above where it began. */
  lemma InsideIsDeep(s: Scan, v: Json, k: nat)
    requires Between(s) && WellFormed(v) && Container(v) && 0 < k < |Print(v)|
    ensures Run(s, Print(v)[..k]).depth >= s.depth + 1
  {
    var up := s.(depth := s.depth + 1, started := true);
    var open, inner, close := Brackets(v, up);
    hide Print, WellFormed, Leads, PrintElems, PrintMembers;
    BracketOpens(s, up, open, inner);
    hide Run, Feed, Above;
    var bs := Print(v);
    AbovePrefix(up, inner, s.depth + 1, k - 1);
    assert bs[..k] == [open] + inner[..k - 1];
    RunConcat(s, [open], inner[..k - 1]);
  }

  lemma BracketOpens(s: Scan, up: Scan, open: byte, inner: seq<byte>)
    requires Between(s) && up == s.(depth := s.depth + 1, started := true) && open in [LBRACE, LBRACKET]
    requires Leads(up, inner, up)
    ensures Run(s, [open]) == up && Above(up, inner, s.depth + 1)
  {}

  /** A bracketed text is a bracket, an inside that leads back to where it started, and a bracket. */
  lemma Brackets(v: Json, s: Scan) returns (open: byte, inner: seq<byte>, close: byte)
    requires WellFormed(v) && Container(v) && Between(s) && s.started
    ensures Print(v) == [open] + inner + [close] && open in [LBRACE, LBRACKET] && Leads(s, inner, s)
  {
    hide Leads, Between;
    match v {
      case Arr(pad, es) =>
        open, close := LBRACKET, RBRACKET;
        if es.NoElem? {
          NeutralBytes(s, pad);
          inner := pad;
        } else {
          ElemsReturn(s, es);
          inner := PrintElems(es);
        }
      case Obj(pad, ms) =>
        open, close := LBRACE, RBRACE;
        if ms.NoMember? {
          NeutralBytes(s, pad);
          inner := pad;
        } else {
          MembersReturn(s, ms);
          inner := PrintMembers(ms);
        }
    }
  }

  lemma SpacesAreNeutral(s: Scan, bs: seq<byte>)
    requires Between(s) && Spaces(bs)
    ensures Run(s, bs) == s
  {
    NeutralBytes(s, bs);
  }

  lemma ValueStarts(v: Json)
    requires WellFormed(v) && Container(v)
    ensures Run(FRESH, Print(v)) == FRESH.(started := true) && Print(v) != []
  {
    ValueReturns(FRESH, v);
  }

  /** The automaton flags exactly the prefixes that hold the whole value. */
  lemma DoneExactlyAfterValue(lead: seq<byte>, v: Json, trail: seq<byte>, k: nat)
    requires Spaces(lead) && WellFormed(v) && Container(v) && Spaces(trail)
    requires k <= |lead + Print(v) + trail|
    ensures Done(Run(FRESH, (lead + Print(v) + trail)[..k])) <==> k >= |lead + Print(v)|
  {
    ValueStarts(v);
    hide Run, Leads, Print, WellFormed;
    var text := lead + Print(v) + trail;
    if k <= |lead| {
      assert text[..k] == lead[..k];
      SpacesAreNeutral(FRESH, lead[..k]);
    } else if k < |lead + Print(v)| {
      var part := Print(v)[..k - |lead|];
      assert text[..k] == lead + part;
      SpacesAreNeutral(FRESH, lead);
      RunConcat(FRESH, lead, part);
      InsideIsDeep(FRESH, v, k - |lead|);
    } else {
      var part := trail[..k - |lead + Print(v)|];
      assert text[..k] == lead + Print(v) + part;
      SpacesAreNeutral(FRESH, lead);
      RunConcat(FRESH, lead, Print(v));
      RunConcat(FRESH, lead + Print(v), part);
      SpacesAreNeutral(Run(FRESH, lead + Print(v)), part);
    }
  }

  /** The bytes of the first `k` reads are a prefix of the bytes of the first `n`, longer with every read. */
  lemma {:induction false} ReceivedPrefix(events: seq<ReadEvent>, k: nat, n: nat)
    requires k <= n <= |events|
    requires forall j :: 0 <= j < n ==> events[j].Data? && events[j].bytes != []
    ensures Received(events[..k]) <= Received(events[..n])
    ensures |Received(events[..k])| + (n - k) <= |Received(events[..n])|
    decreases n - k
  {
    if k < n {
      ReceivedPrefix(events, k, n - 1);
      assert events[..n][..n - 1] == events[..n - 1];
    }
  }

  /** Whatever way a JSON object or array (with whitespace around it) is cut into non-empty reads, the loop
      ends at the read that brings the last byte of the value and hands over exactly what was read. */
  lemma ExactFraming(lead: seq<byte>, v: Json, trail: seq<byte>, events: seq<ReadEvent>, n: nat,
                     stop: nat, outcome: Framing)
    requires Spaces(lead) && WellFormed(v) && Container(v) && Spaces(trail)
    requires n <= |events| && forall j :: 0 <= j < n ==> events[j].Data? && events[j].bytes != []
    requires Received(events[..n]) == lead + Print(v) + trail
    requires |Received(events[..n])| <= 1048576
    requires Framed(events, stop, outcome)
    ensures stop < n && outcome == Dispatch(Received(events[..stop + 1]))
    ensures |Received(events[..stop])| < |lead + Print(v)| <= |Received(events[..stop + 1])|
  {
    var text := lead + Print(v) + trail;
    forall k | 0 <= k <= n
      ensures Received(events[..k]) <= text
      ensures Done(Run(FRESH, Received(events[..k]))) <==> |Received(events[..k])| >= |lead + Print(v)|
    {
      ReceivedPrefix(events, k, n);
      assert Received(events[..k]) == text[..|Received(events[..k])|];
      DoneExactlyAfterValue(lead, v, trail, |Received(events[..k])|);
    }
    if stop >= n {
      assert false;
    }
    forall k | 0 <= k <= stop + 1 ensures |Received(events[..k])| <= MAX_REQUEST_SIZE {
      ReceivedPrefix(events, k, n);
    }
    assert events[..stop + 1][..stop] == events[..stop];
  }

  /** Without trailing whitespace the loop stops at the last read and never earlier. */
  lemma StopsAtLastRead(lead: seq<byte>, v: Json, events: seq<ReadEvent>, n: nat, stop: nat, outcome: Framing)
    requires Spaces(lead) && WellFormed(v) && Container(v)
    requires n <= |events| && forall j :: 0 <= j < n ==> events[j].Data? && events[j].bytes != []
    requires Received(events[..n]) == lead + Print(v)
    requires |Received(events[..n])| <= 1048576
    requires Framed(events, stop, outcome)
    ensures stop == n - 1 && outcome == Dispatch(lead + Print(v))
  {
    assert lead + Print(v) + [] == lead + Print(v);
    ExactFraming(lead, v, [], events, n, stop, outcome);
    ReceivedPrefix(events, stop + 1, n);
  }

  /** A text that is a single scalar never looks complete, so only a timeout, an end or an error ends the loop. */
  lemma ScalarNeverCompletes(lead: seq<byte>, v: Json, trail: seq<byte>)
    requires Spaces(lead) && WellFormed(v) && !Container(v) && Spaces(trail)
    ensures !Done(Run(FRESH, lead + Print(v) + trail))
  {
    NeutralBytes(FRESH, lead);
    ValueReturns(FRESH, v);
    LeadsConcat(FRESH, lead, FRESH, Print(v), FRESH);
    NeutralBytes(FRESH, trail);
    LeadsConcat(FRESH, lead + Print(v), FRESH, trail, FRESH);
  }

  // ---------------------------------------------------------------- two requests on one connection

  const STARTED := FRESH.(started := true)

  lemma SecondValue(w: Json, trail: seq<byte>, j: nat)
    requires WellFormed(w) && Container(w) && Spaces(trail) && 0 < j <= |Print(w) + trail|
    ensures Done(Run(STARTED, (Print(w) + trail)[..j])) <==> j >= |Print(w)|
  {
    ValueReturns(STARTED, w);
    var text := Print(w) + trail;
    if j < |Print(w)| {
      assert text[..j] == Print(w)[..j];
      InsideIsDeep(STARTED, w, j);
    } else {
      var part := trail[..j - |Print(w)|];
      assert text[..j] == Print(w) + part;
      hide Run, Leads, Print, WellFormed;
      RunConcat(STARTED, Print(w), part);
      SpacesAreNeutral(STARTED, part);
    }
  }

  /** Of the prefixes of two requests exactly those look complete that end between the two, or behind both. */
  lemma DoneBetweenOrBehind(lead: seq<byte>, v: Json, gap: seq<byte>, w: Json, trail: seq<byte>, k: nat)
    requires Spaces(lead) && WellFormed(v) && Container(v) && Spaces(gap)
    requires WellFormed(w) && Container(w) && Spaces(trail)
    requires k <= |lead + Print(v) + gap + Print(w) + trail|
    ensures Done(Run(FRESH, (lead + Print(v) + gap + Print(w) + trail)[..k])) <==>
      |lead + Print(v)| <= k <= |lead + Print(v) + gap| || k >= |lead + Print(v) + gap + Print(w)|
  {
    ValueStarts(v);
    ValueStarts(w);
    hide Run, Leads, Print, WellFormed, Spaces, Done;
    var first := lead + Print(v) + gap;
    var text := first + Print(w) + trail;
    if k <= |first| {
      assert text[..k] == first[..k];
      DoneExactlyAfterValue(lead, v, gap, k);
    } else {
      var j := k - |first|;
      var part := (Print(w) + trail)[..j];
      assert text[..k] == first + part;
      RunConcat(FRESH, first, part);
      FirstRequestLeads(lead, v, gap);
      SecondValue(w, trail, j);
    }
  }

  lemma FirstRequestLeads(lead: seq<byte>, v: Json, gap: seq<byte>)
    requires Spaces(lead) && WellFormed(v) && Container(v) && Spaces(gap)
    ensures Run(FRESH, lead + Print(v) + gap) == STARTED
  {
    ValueStarts(v);
    hide Print, WellFormed, Spaces;
    SpacesAreNeutral(FRESH, lead);
    RunConcat(FRESH, lead, Print(v));
    RunConcat(FRESH, lead + Print(v), gap);
    SpacesAreNeutral(STARTED, gap);
  }

  /** The first `k` reads end between the two requests. */
  ghost predicate EndsInGap(events: seq<ReadEvent>, k: nat, from: nat, to: nat)
    requires k <= |events|
  {
    from <= |Received(events[..k])| <= to
  }

  /** After the first `k` reads. */
  lemma ReadsLookDone(lead: seq<byte>, v: Json, gap: seq<byte>, w: Json, trail: seq<byte>,
                      events: seq<ReadEvent>, n: nat, k: nat)
    requires Spaces(lead) && WellFormed(v) && Container(v) && Spaces(gap)
    requires WellFormed(w) && Container(w) && Spaces(trail)
    requires k <= n <= |events| && forall j :: 0 <= j < n ==> events[j].Data? && events[j].bytes != []
    requires Received(events[..n]) == lead + Print(v) + gap + Print(w) + trail
    ensures var from, to := |lead + Print(v)|, |lead + Print(v) + gap|;
      && |Received(events[..k])| <= |Received(events[..n])|
      && (Done(Run(FRESH, Received(events[..k]))) <==>
            EndsInGap(events, k, from, to) || |Received(events[..k])| >= to + |Print(w)|)
  {
    hide Run, Print, WellFormed, Spaces, Done, Received;
    var text := lead + Print(v) + gap + Print(w) + trail;
    ReceivedPrefix(events, k, n);
    assert Received(events[..k]) == text[..|Received(events[..k])|];
    DoneBetweenOrBehind(lead, v, gap, w, trail, |Received(events[..k])|);
  }

  /** When two requests arrive in non-empty reads, the loop hands over the first one exactly when some read ends in
      the whitespace between them, at the first such read; otherwise the second hides the end of the first, and
      both are handed over as one payload, at the read that brings the end of the second. */
  lemma PipelinedRequestIsHidden(lead: seq<byte>, v: Json, gap: seq<byte>, w: Json, trail: seq<byte>,
                                 events: seq<ReadEvent>, n: nat, stop: nat, outcome: Framing)
    requires Spaces(lead) && WellFormed(v) && Container(v) && Spaces(gap)
    requires WellFormed(w) && Container(w) && Spaces(trail)
    requires n <= |events| && forall j :: 0 <= j < n ==> events[j].Data? && events[j].bytes != []
    requires Received(events[..n]) == lead + Print(v) + gap + Print(w) + trail
    requires |Received(events[..n])| <= MAX_REQUEST_SIZE
    requires Framed(events, stop, outcome)
    ensures stop < n && outcome == Dispatch(Received(events[..stop + 1]))
    ensures var from, to := |lead + Print(v)|, |lead + Print(v) + gap|;
      if exists k :: 0 <= k <= n && EndsInGap(events, k, from, to)
      then EndsInGap(events, stop + 1, from, to) && forall k :: 0 <= k <= stop ==> !EndsInGap(events, k, from, to)
      else |Received(events[..stop])| < to + |Print(w)| <= |Received(events[..stop + 1])|
  {
    hide *;
    var from, to := |lead + Print(v)|, |lead + Print(v) + gap|;
    forall k | 0 <= k <= n
      ensures |Received(events[..k])| <= MAX_REQUEST_SIZE
      ensures Done(Run(FRESH, Received(events[..k]))) <==>
        EndsInGap(events, k, from, to) || |Received(events[..k])| >= to + |Print(w)|
    {
      ReadsLookDone(lead, v, gap, w, trail, events, n, k);
    }
    assert |Received(events[..n])| >= to + |Print(w)|;
    StopsWhenDone(events, n, stop, outcome);
    GapMeans(events, stop + 1, from, to);
    GapMeans(events, stop, from, to);
    if k :| 0 <= k <= n && EndsInGap(events, k, from, to) {
      GapMeans(events, k, from, to);
      if k >= stop + 1 { ReceivedPrefix(events, stop + 1, k); }
    }
  }

  lemma GapMeans(events: seq<ReadEvent>, k: nat, from: nat, to: nat)
    requires k <= |events|
    ensures EndsInGap(events, k, from, to) <==> from <= |Received(events[..k])| <= to
  {}

  /** Of reads that bring bytes and stay within the limit the loop stops at the first that looks complete. */
  lemma StopsWhenDone(events: seq<ReadEvent>, n: nat, stop: nat, outcome: Framing)
    requires n <= |events| && forall j :: 0 <= j < n ==> events[j].Data? && events[j].bytes != []
    requires forall k :: 0 <= k <= n ==> |Received(events[..k])| <= MAX_REQUEST_SIZE
    requires Done(Run(FRESH, Received(events[..n]))) && Framed(events, stop, outcome)
    ensures stop < n && outcome == Dispatch(Received(events[..stop + 1]))
    ensures Done(Run(FRESH, Received(events[..stop + 1])))
    ensures forall k :: 0 <= k <= stop ==> !Done(Run(FRESH, Received(events[..k])))
  {
    hide Run, Done, Received;
    assert StillReading(events, stop);
    if stop >= n { assert false; }
    if Received(events[..stop + 1]) == [] { ReceivedStep(events, stop); }
  }

  // ---------------------------------------------------------------- any bytes at all

  /** Bytes inside quotes: one that stands for itself, or a backslash and the byte it escapes. */
  datatype Inner = Itself(b: byte) | Escaped(b: byte)

  /** A byte outside quotes, or quotes with what is between them. */
  datatype Token = Single(b: byte) | Quoted(chars: seq<Inner>)

  /** What may follow the last token: quotes that are still open, perhaps behind a backslash. */
  datatype Tail = NoTail | Open(chars: seq<Inner>, escaping: bool)

  predicate InnerOk(chars: seq<Inner>) {
    forall i :: 0 <= i < |chars| && chars[i].Itself? ==> chars[i].b != QUOTE && chars[i].b != BACKSLASH
  }

  predicate TokenOk(t: Token) {
    match t
    case Single(b) => b != QUOTE
    case Quoted(chars) => InnerOk(chars)
  }

  predicate TokensOk(ts: seq<Token>) { forall i :: 0 <= i < |ts| ==> TokenOk(ts[i]) }

  predicate TailOk(t: Tail) { t.Open? ==> InnerOk(t.chars) }

  function InnerBytes(chars: seq<Inner>): seq<byte> {
    if chars == [] then []
    else
      var c := chars[|chars| - 1];
      InnerBytes(chars[..|chars| - 1]) + if c.Itself? then [c.b] else [BACKSLASH, c.b]
  }

  function TokenBytes(t: Token): seq<byte> {
    match t
    case Single(b) => [b]
    case Quoted(chars) => [QUOTE] + InnerBytes(chars) + [QUOTE]
  }

  function TokensBytes(ts: seq<Token>): seq<byte> {
    if ts == [] then [] else TokensBytes(ts[..|ts| - 1]) + TokenBytes(ts[|ts| - 1])
  }

  function TailBytes(t: Tail): seq<byte> {
    match t
    case NoTail => []
    case Open(chars, escaping) => [QUOTE] + InnerBytes(chars) + if escaping then [BACKSLASH] else []
  }

  /** How many of some bytes there are outside quotes. */
  function Count(ts: seq<Token>, bytes: set<byte>): nat {
    if ts == [] then 0
    else
      var t := ts[|ts| - 1];
      Count(ts[..|ts| - 1], bytes) + if t.Single? && t.b in bytes then 1 else 0
  }

  /** Any bytes are tokens, and perhaps quotes that are still open. */
  lemma {:induction false} EveryTextIsTokens(bs: seq<byte>) returns (ts: seq<Token>, tail: Tail)
    ensures TokensOk(ts) && TailOk(tail) && bs == TokensBytes(ts) + TailBytes(tail)
  {
    if bs == [] {
      ts, tail := [], NoTail;
    } else {
      var n := |bs| - 1;
      var b := bs[n];
      ts, tail := EveryTextIsTokens(bs[..n]);
      assert bs == bs[..n] + [b];
      hide TokensBytes, InnerBytes;
      ts, tail := OneMoreByte(ts, tail, b);
    }
  }

  lemma OneMoreByte(ts: seq<Token>, tail: Tail, b: byte) returns (ts': seq<Token>, tail': Tail)
    requires TokensOk(ts) && TailOk(tail)
    ensures TokensOk(ts') && TailOk(tail')
    ensures TokensBytes(ts') + TailBytes(tail') == TokensBytes(ts) + TailBytes(tail) + [b]
  {
    ts', tail' := ts, tail;
    hide TokensBytes, InnerBytes;
    match tail {
      case NoTail =>
        if b == QUOTE {
          NoInnerBytes();
          tail' := Open([], false);
        } else {
          ts' := ts + [Single(b)];
          TokensSnoc(ts, Single(b));
        }
      case Open(chars, true) =>
        tail' := Open(chars + [Escaped(b)], false);
        InnerSnoc(chars, Escaped(b));
      case Open(chars, false) =>
        if b == QUOTE {
          ts', tail' := ts + [Quoted(chars)], NoTail;
          TokensSnoc(ts, Quoted(chars));
        } else if b == BACKSLASH {
          tail' := Open(chars, true);
        } else {
          tail' := Open(chars + [Itself(b)], false);
          InnerSnoc(chars, Itself(b));
        }
    }
  }

  lemma NoInnerBytes()
    ensures InnerBytes([]) == []
  {}

  lemma InnerSnoc(chars: seq<Inner>, c: Inner)
    ensures InnerBytes(chars + [c]) == InnerBytes(chars) + if c.Itself? then [c.b] else [BACKSLASH, c.b]
  {
    assert (chars + [c])[..|chars|] == chars;
  }

  lemma TokensSnoc(ts: seq<Token>, t: Token)
    ensures TokensBytes(ts + [t]) == TokensBytes(ts) + TokenBytes(t)
  {
    assert (ts + [t])[..|ts|] == ts;
  }

  lemma {:induction false} InnerStays(s: Scan, chars: seq<Inner>)
    requires s.inString && !s.escape && InnerOk(chars)
    ensures Run(s, InnerBytes(chars)) == s
  {
    if chars == [] {
    } else {
      var n := |chars| - 1;
      var c := chars[n];
      InnerStays(s, chars[..n]);
      var last := if c.Itself? then [c.b] else [BACKSLASH, c.b];
      RunConcat(s, InnerBytes(chars[..n]), last);
      if c.Escaped? { EscapePair(s, c.b); }
    }
  }

  lemma QuotesStay(s: Scan, chars: seq<Inner>)
    requires Between(s) && InnerOk(chars)
    ensures Run(s, [QUOTE] + InnerBytes(chars)) == s.(inString := true)
    ensures Run(s, [QUOTE] + InnerBytes(chars) + [QUOTE]) == s
  {
    var inside := s.(inString := true);
    RunConcat(s, [QUOTE], InnerBytes(chars));
    InnerStays(inside, chars);
    assert Run(s, [QUOTE]) == inside;
    RunConcat(s, [QUOTE] + InnerBytes(chars), [QUOTE]);
    assert Run(inside, [QUOTE]) == s;
  }

  /** Outside quotes the automaton counts brackets, and nothing else moves it. */
  lemma {:induction false} TokensCount(ts: seq<Token>)
    requires TokensOk(ts)
    ensures var up, down := Count(ts, {0x7B, 0x5B}), Count(ts, {0x7D, 0x5D});
      Run(FRESH, TokensBytes(ts)) == Scan(up - down, false, false, up > 0)
  {
    if ts == [] {
    } else {
      var n := |ts| - 1;
      TokensCount(ts[..n]);
      var s := Run(FRESH, TokensBytes(ts[..n]));
      RunConcat(FRESH, TokensBytes(ts[..n]), TokenBytes(ts[n]));
      assert TokenOk(ts[n]);
      if ts[n].Quoted? { QuotesStay(s, ts[n].chars); }
    }
  }

  /** Whatever bytes were received, JSON or not: they look complete exactly when outside quotes there is an opening
      bracket and there are as many closing ones as opening ones. */
  lemma LooksCompleteExactly(bs: seq<byte>, ts: seq<Token>, tail: Tail)
    requires TokensOk(ts) && TailOk(tail) && bs == TokensBytes(ts) + TailBytes(tail)
    ensures Done(Run(FRESH, bs)) <==> Count(ts, {0x7B, 0x5B}) == Count(ts, {0x7D, 0x5D}) > 0
  {
    TokensCount(ts);
    hide Count, TokensBytes, TailBytes, Run;
    RunConcat(FRESH, TokensBytes(ts), TailBytes(tail));
    TailStays(Run(FRESH, TokensBytes(ts)), tail);
  }

  lemma RunNothing(s: Scan)
    ensures Run(s, []) == s
  {}

  lemma RunOne(s: Scan, b: byte)
    ensures Run(s, [b]) == Feed(s, b)
  {}

  lemma TailStays(s: Scan, tail: Tail)
    requires Between(s) && TailOk(tail)
    ensures var t := Run(s, TailBytes(tail)); t.depth == s.depth && t.started == s.started
  {
    hide InnerBytes, Run;
    if tail.NoTail? {
      RunNothing(s);
    } else {
      QuotesStay(s, tail.chars);
      var open := [QUOTE] + InnerBytes(tail.chars);
      if tail.escaping {
        RunConcat(s, open, [BACKSLASH]);
        RunOne(s.(inString := true), BACKSLASH);
      } else {
        assert open + [] == open;
      }
    }
  }
}
