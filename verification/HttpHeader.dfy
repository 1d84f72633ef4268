/** Header fields as printed and parsed by src/HttpHeaderBase.cpp (section 4.2 of RFC 2616),
    and the loop of src/HttpAgent.cpp that consumes them from the ring buffer. */
module HttpHeaders {
  import opened Integers
  import opened CircularBuffers
  import opened Options

  type text = seq<byte>

  const CR: byte := 13
  const LF: byte := 10
  const SP: byte := 32
  const TAB: byte := 9
  const COLON: byte := 58
  const CRLF: text := [CR, LF]

  const INVALID_FIELD_TYPE := -1
  const EOH := 0
  const MAX_FIELDS := 32

  /** One of the maps between field numbers and names that a header is given. */
  datatype FieldMap = FieldMap(typeOf: text -> int, nameOf: int -> Option<text>)

  datatype Field = Field(kind: int, data: text)

  function LookupType(maps: seq<FieldMap>, name: text): int {
    if maps == [] then INVALID_FIELD_TYPE
    else if maps[0].typeOf(name) != INVALID_FIELD_TYPE then maps[0].typeOf(name)
    else LookupType(maps[1..], name)
  }

  function LookupName(maps: seq<FieldMap>, kind: int): Option<text> {
    if maps == [] then None
    else if maps[0].nameOf(kind).Some? then maps[0].nameOf(kind)
    else LookupName(maps[1..], kind)
  }

  /** The C string that a buffer holds ends at its first NUL. */
  function CStr(s: text): text {
    s[..IndexOf(s, 0)]
  }

  predicate Blank(c: int) {
    c == SP || c == TAB
  }

  /** byteAt on the contents: -1 beyond the end. */
  function At(s: text, i: nat): int {
    if i < |s| then s[i] else -1
  }

  // ----- searchForLine and parseLine as functions of the buffer's contents

  function SearchFrom(s: text, i: nat, haveCR: bool): int
    decreases |s| - i
  {
    if i >= |s| then -1
    else if !haveCR then SearchFrom(s, i + 1, s[i] == CR)
    else if s[i] != LF then SearchFrom(s, i + 1, false)
    else if i + 1 == 2 then EOH
    else if Blank(At(s, i + 1)) then SearchFrom(s, i + 1, false)
    else i + 1
  }

  datatype ParserState = ParseField | ParseData | ParseCRLF | SkipWS

  /** The automaton's variables. */
  datatype Parser = Parser(state: ParserState, field: text, data: text, appendSpace: bool)

  datatype Parsed = Failed | Done(field: text, data: text, length: nat)

  const START := Parser(ParseField, [], [], false)

  /** The automaton after byte i, unless that byte ends the field. */
  function StepParser(s: text, i: nat, p: Parser): Parser
    requires i < |s|
  {
    var c := s[i];
    match p.state
    case ParseField =>
      if c == COLON then p.(state := SkipWS, appendSpace := false) else p.(field := p.field + [c])
    case ParseData =>
      if c == CR && At(s, i + 1) == LF then p.(state := ParseCRLF, appendSpace := true)
      else p.(data := p.data + [c])
    case ParseCRLF =>
      if c == LF then p.(state := SkipWS) else p
    case SkipWS =>
      if c == CR && At(s, i + 1) == LF then p.(state := ParseCRLF)
      else if Blank(c) then p
      else p.(data := p.data + (if p.appendSpace then [SP, c] else [c]), appendSpace := false, state := ParseData)
  }

  predicate EndsField(s: text, i: nat, p: Parser)
    requires i < |s|
  {
    p.state == ParseCRLF && s[i] == LF && !Blank(At(s, i + 1))
  }

  function ParseFrom(s: text, i: nat, p: Parser): (r: Parsed)
    ensures r.Done? ==> i < r.length <= |s|
    decreases |s| - i
  {
    if i >= |s| then Failed
    else if EndsField(s, i, p) then Done(p.field, p.data, i + 1)
    else ParseFrom(s, i + 1, StepParser(s, i, p))
  }

  /** What parseLine stores, if it knows the field. */
  function Stored(maps: seq<FieldMap>, r: Parsed): seq<Field>
    requires r.Done?
  {
    var kind := LookupType(maps, CStr(r.field));
    if kind == INVALID_FIELD_TYPE then [] else [Field(kind, CStr(r.data))]
  }

  /** The agent's loop.  It never gets past a line that is found but cannot be parsed. */
  datatype Reading = Hangs | Stops(fields: seq<Field>, rest: text, code: int)

  function ReadAll(maps: seq<FieldMap>, s: text): Reading
    decreases |s|
  {
    var found := SearchFrom(s, 0, false);
    if found <= 0 then Stops([], s, found)
    else
      var r := ParseFrom(s, 0, START);
      if r.Failed? then Hangs
      else
        match ReadAll(maps, s[r.length..])
        case Hangs => Hangs
        case Stops(fields, rest, code) => Stops(Stored(maps, r) + fields, rest, code)
  }

  // ----- printing

  function LineOf(name: text, data: text): text {
    name + [COLON, SP] + data + CRLF
  }

  predicate AllKnown(maps: seq<FieldMap>, fields: seq<Field>) {
    forall f :: f in fields ==> LookupName(maps, f.kind).Some?
  }

  function Block(maps: seq<FieldMap>, fields: seq<Field>): text
    requires AllKnown(maps, fields)
  {
    if fields == [] then []
    else LineOf(LookupName(maps, fields[0].kind).value, fields[0].data) + Block(maps, fields[1..])
  }

  /** In bytes: name, colon, space, data, CR, LF. */
  lemma PrintedLine(name: text, data: text)
    ensures LineOf(name, data) == name + [58, 32] + data + [13, 10]
  {
  }

  // ----- a printed line is found and parsed back

  lemma {:induction false} SearchSkips(s: text, i: nat, k: nat)
    requires i <= k <= |s| && forall j :: i <= j < k ==> s[j] != CR
    ensures SearchFrom(s, i, false) == SearchFrom(s, k, false)
    decreases k - i
  {
    if i < k {
      SearchSkips(s, i + 1, k);
    }
  }

  /** The first CR is followed by LF at the end of a line of k + 2 bytes, k > 0. */
  lemma SearchFindsLine(s: text, k: nat)
    requires 0 < k && k + 1 < |s| && (forall j :: 0 <= j < k ==> s[j] != CR)
    requires s[k] == CR && s[k + 1] == LF && !Blank(At(s, k + 2))
    ensures SearchFrom(s, 0, false) == k + 2
  {
    SearchSkips(s, 0, k);
    assert SearchFrom(s, k, false) == SearchFrom(s, k + 1, true);
  }

  lemma {:induction false} FieldPhase(s: text, i: nat, k: nat, p: Parser)
    requires i <= k < |s| && p.state == ParseField && s[k] == COLON && forall j :: i <= j < k ==> s[j] != COLON
    ensures ParseFrom(s, i, p) == ParseFrom(s, k + 1, Parser(SkipWS, p.field + s[i..k], p.data, false))
    decreases k - i
  {
    if i == k {
      assert p.field + s[i..k] == p.field;
    } else {
      var q := StepParser(s, i, p);
      FieldPhase(s, i + 1, k, q);
      assert q.field + s[i + 1..k] == p.field + s[i..k];
    }
  }

  lemma {:induction false} DataPhase(s: text, i: nat, k: nat, p: Parser)
    requires i <= k && k + 1 < |s| && p.state == ParseData && (forall j :: i <= j < k ==> s[j] != CR)
    requires s[k] == CR && s[k + 1] == LF && !Blank(At(s, k + 2))
    ensures ParseFrom(s, i, p) == Done(p.field, p.data + s[i..k], k + 2)
    decreases k - i
  {
    if i == k {
      var q := StepParser(s, k, p);
      assert ParseFrom(s, k, p) == ParseFrom(s, k + 1, q);
      assert EndsField(s, k + 1, q);
      assert p.data + s[i..k] == p.data;
    } else {
      var q := StepParser(s, i, p);
      DataPhase(s, i + 1, k, q);
      assert q.data + s[i + 1..k] == p.data + s[i..k];
    }
  }

  predicate NameOk(name: text) {
    && 0 !in name && CR !in name && COLON !in name
    && (name != [] ==> !Blank(name[0]))
  }

  predicate DataOk(data: text) {
    0 !in data && CR !in data && (data != [] ==> !Blank(data[0]))
  }

  /** Where the pieces of a printed line lie. */
  lemma LineParts(name: text, data: text, rest: text)
    ensures var s, m := LineOf(name, data) + rest, |name|; var k := m + 2 + |data|;
      && s[..m] == name && s[m] == COLON && s[m + 1] == SP && s[m + 2..k] == data
      && s[k] == CR && s[k + 1] == LF && At(s, k + 2) == At(rest, 0)
      && |LineOf(name, data)| == k + 2
  {
  }

  lemma LineIsFound(name: text, data: text, rest: text)
    requires NameOk(name) && DataOk(data) && !Blank(At(rest, 0))
    ensures SearchFrom(LineOf(name, data) + rest, 0, false) == |LineOf(name, data)|
  {
    var s, m := LineOf(name, data) + rest, |name|;
    var k := m + 2 + |data|;
    LineParts(name, data, rest);
    assert forall j :: 0 <= j < m ==> s[j] == name[j];
    assert forall j :: m + 2 <= j < k ==> s[j] == data[j - m - 2];
    SearchFindsLine(s, k);
  }

  lemma LineIsParsed(name: text, data: text, rest: text)
    requires NameOk(name) && DataOk(data) && !Blank(At(rest, 0))
    ensures ParseFrom(LineOf(name, data) + rest, 0, START) == Done(name, data, |LineOf(name, data)|)
  {
    var s, m := LineOf(name, data) + rest, |name|;
    var k := m + 2 + |data|;
    LineParts(name, data, rest);
    assert forall j :: 0 <= j < m ==> s[j] == name[j];
    FieldPhase(s, 0, m, START);
    var p := Parser(SkipWS, [] + s[0..m], [], false);
    assert p.field == name;
    assert ParseFrom(s, m + 1, p) == ParseFrom(s, m + 2, p);
    DataIsParsed(s, m + 2, k, p, data);
  }

  lemma DataIsParsed(s: text, i: nat, k: nat, p: Parser, data: text)
    requires i <= k && k + 1 < |s| && s[i..k] == data && DataOk(data)
    requires s[k] == CR && s[k + 1] == LF && !Blank(At(s, k + 2))
    requires p.state == SkipWS && p.data == [] && !p.appendSpace
    ensures ParseFrom(s, i, p) == Done(p.field, data, k + 2)
  {
    if data == [] {
      var q := StepParser(s, i, p);
      assert ParseFrom(s, i, p) == ParseFrom(s, i + 1, q);
      assert EndsField(s, i + 1, q);
    } else {
      assert forall j :: i <= j < k ==> s[j] == data[j - i];
      var q := StepParser(s, i, p);
      DataPhase(s, i + 1, k, q);
      assert q.data + s[i + 1..k] == data;
    }
  }

  /** What the round trip asks of a field: its number names it, and its text survives the syntax. */
  predicate FieldOk(maps: seq<FieldMap>, f: Field) {
    && LookupName(maps, f.kind).Some?
    && NameOk(LookupName(maps, f.kind).value)
    && LookupType(maps, LookupName(maps, f.kind).value) == f.kind != INVALID_FIELD_TYPE
    && DataOk(f.data)
  }

  predicate AllOk(maps: seq<FieldMap>, fields: seq<Field>) {
    forall f :: f in fields ==> FieldOk(maps, f)
  }

  lemma CStrWhole(s: text)
    requires 0 !in s
    ensures CStr(s) == s
  {
    IndexOfUnique(s, 0, |s|);
  }

  /** What stands behind a NUL is not seen. */
  lemma CStrStops(s: text, rest: text)
    requires 0 !in s
    ensures CStr(s + [0] + rest) == s
  {
    IndexOfUnique(s + [0] + rest, 0, |s|);
  }

  /** What follows a line in a printed block is not a continuation. */
  lemma BlockStartsUnblank(maps: seq<FieldMap>, fields: seq<Field>, rest: text)
    requires AllOk(maps, fields)
    ensures AllKnown(maps, fields) && !Blank(At(Block(maps, fields) + CRLF + rest, 0))
  {
    assert AllKnown(maps, fields);
    if fields != [] {
      assert FieldOk(maps, fields[0]);
      var name := LookupName(maps, fields[0].kind).value;
      assert (Block(maps, fields) + CRLF + rest)[0] == LineOf(name, fields[0].data)[0];
    }
  }

  /** The fields that buildHeader prints are the fields that the agent's loop stores, in order;
      the loop stops at the empty line and leaves what follows it in the buffer. */
  lemma {:induction false} BlockRoundTrip(maps: seq<FieldMap>, fields: seq<Field>, rest: text)
    requires AllOk(maps, fields)
    ensures AllKnown(maps, fields)
    ensures ReadAll(maps, Block(maps, fields) + CRLF + rest) == Stops(fields, CRLF + rest, EOH)
  {
    BlockStartsUnblank(maps, fields, rest);
    var s := Block(maps, fields) + CRLF + rest;
    if fields == [] {
      assert s == CRLF + rest;
      assert SearchFrom(s, 0, false) == SearchFrom(s, 1, true) == EOH;
    } else {
      var f := fields[0];
      assert FieldOk(maps, f);
      var name := LookupName(maps, f.kind).value;
      var line, tail := LineOf(name, f.data), Block(maps, fields[1..]) + CRLF + rest;
      assert s == line + tail && s[|line|..] == tail;
      BlockStartsUnblank(maps, fields[1..], rest);
      LineIsFound(name, f.data, tail);
      LineIsParsed(name, f.data, tail);
      CStrWhole(name);
      CStrWhole(f.data);
      BlockRoundTrip(maps, fields[1..], rest);
      assert [f] + fields[1..] == fields;
    }
  }

  // ----- continued lines

  /** The data of a field as it comes in: the blanks that lead a line, and the line behind them. */
  datatype Piece = Piece(blanks: text, body: text)

  predicate BlanksOk(blanks: text) {
    forall j :: 0 <= j < |blanks| ==> blanks[j] == 32 || blanks[j] == 9
  }

  /** A line body holds no CR LF and no blank in front. */
  predicate BodyOk(body: text) {
    && (body != [] ==> body[0] != 32 && body[0] != 9)
    && forall j :: 0 <= j < |body| - 1 ==> !(body[j] == 13 && body[j + 1] == 10)
  }

  /** The first line may do without blanks; a continuation is known by them. */
  predicate PiecesOk(ps: seq<Piece>) {
    && ps != []
    && (forall i :: 0 <= i < |ps| ==> BlanksOk(ps[i].blanks) && BodyOk(ps[i].body))
    && (forall i :: 1 <= i < |ps| ==> ps[i].blanks != [])
  }

  /** The pieces as they are sent. */
  function Sent(ps: seq<Piece>): text {
    if ps == [] then [] else ps[0].blanks + ps[0].body + [13, 10] + Sent(ps[1..])
  }

  /** One space between two texts, none beside an empty one. */
  function Glue(a: text, b: text): text {
    if a == [] then b else if b == [] then a else a + [32] + b
  }

  /** The pieces as one text: the line bodies that are not empty, with single spaces between them. */
  function Unfolded(ps: seq<Piece>): text {
    if ps == [] then [] else Glue(ps[0].body, Unfolded(ps[1..]))
  }

  lemma GlueAssociates(a: text, b: text, c: text)
    ensures Glue(Glue(a, b), c) == Glue(a, Glue(b, c))
  {
    if a != [] && b != [] && c != [] {
      assert a + [32] + b + [32] + c == a + [32] + (b + [32] + c);
    }
  }

  lemma {:induction false} BlanksSkipped(s: text, i: nat, k: nat, p: Parser)
    requires i <= k <= |s| && p.state == SkipWS && forall j :: i <= j < k ==> Blank(s[j])
    ensures ParseFrom(s, i, p) == ParseFrom(s, k, p)
    decreases k - i
  {
    if i < k {
      BlanksSkipped(s, i + 1, k, p);
    }
  }

  /** A line body is taken over whole, up to the CR LF behind it. */
  lemma {:induction false} BodyTaken(s: text, i: nat, k: nat, p: Parser)
    requires i <= k && k + 1 < |s| && p.state == ParseData && s[k] == CR && s[k + 1] == LF
    requires forall j :: i <= j < k ==> !(s[j] == CR && s[j + 1] == LF)
    ensures ParseFrom(s, i, p) == ParseFrom(s, k + 1, Parser(ParseCRLF, p.field, p.data + s[i..k], true))
    decreases k - i
  {
    if i < k {
      var q := StepParser(s, i, p);
      BodyTaken(s, i + 1, k, q);
      assert q.data + s[i + 1..k] == p.data + s[i..k];
    } else {
      assert p.data + s[i..k] == p.data;
    }
  }

  /** One piece: what was there before is glued to its body. */
  lemma PieceTaken(s: text, i: nat, piece: Piece, field: text, data: text)
    requires BlanksOk(piece.blanks) && BodyOk(piece.body)
    requires i <= |s| && piece.blanks + piece.body + [13, 10] <= s[i..]
    ensures var k, all := i + |piece.blanks| + |piece.body|, Glue(data, piece.body);
      && k + 1 < |s|
      && ParseFrom(s, i, Parser(SkipWS, field, data, data != []))
      == ParseFrom(s, k + 1, Parser(ParseCRLF, field, all, all != []))
  {
    hide ParseFrom;
    var m, n, t := |piece.blanks|, |piece.body|, piece.blanks + piece.body + [13, 10];
    var k := i + m + n;
    assert forall j :: 0 <= j < |t| ==> s[i + j] == s[i..][j] == t[j];
    forall j | i <= j < i + m ensures Blank(s[j]) {
      assert s[j] == t[j - i] == piece.blanks[j - i];
    }
    assert s[k] == t[m + n] == CR && s[k + 1] == t[m + n + 1] == LF;
    var p := Parser(SkipWS, field, data, data != []);
    BlanksSkipped(s, i, i + m, p);
    assert s[i + m..k] == piece.body;
    if n > 0 {
      BodyOpened(s, i + m, k, piece.body, p);
    } else {
      NoBody(s, k, p);
    }
  }

  lemma NoBody(s: text, i: nat, p: Parser)
    requires i + 1 < |s| && s[i] == CR && s[i + 1] == LF && p.state == SkipWS
    ensures ParseFrom(s, i, p) == ParseFrom(s, i + 1, p.(state := ParseCRLF))
  {
  }

  lemma BodyOpened(s: text, i: nat, k: nat, body: text, p: Parser)
    requires BodyOk(body) && body != [] && k == i + |body| && k + 1 < |s| && s[i..k] == body
    requires s[k] == CR && s[k + 1] == LF && p.state == SkipWS && p.appendSpace == (p.data != [])
    ensures ParseFrom(s, i, p) == ParseFrom(s, k + 1, Parser(ParseCRLF, p.field, Glue(p.data, body), true))
  {
    assert forall j :: i <= j < k ==> s[j] == body[j - i];
    assert forall j :: i <= j < k ==> !(s[j] == CR && s[j + 1] == LF);
    var q := StepParser(s, i, p);
    assert q == Parser(ParseData, p.field, if p.data == [] then [body[0]] else p.data + [32, body[0]], false);
    BodyTaken(s, i + 1, k, q);
    assert q.data + s[i + 1..k] == Glue(p.data, body) by {
      assert s[i + 1..k] == body[1..];
      assert [32, body[0]] + body[1..] == [32] + body;
      assert [body[0]] + body[1..] == body;
    }
  }

  /** The LF ends the field, or leads into a continuation if a blank follows. */
  lemma LineFeedTaken(s: text, i: nat, p: Parser)
    requires i < |s| && s[i] == LF && p.state == ParseCRLF
    ensures ParseFrom(s, i, p) == if Blank(At(s, i + 1)) then ParseFrom(s, i + 1, p.(state := SkipWS))
                                  else Done(p.field, p.data, i + 1)
  {
  }

  /** Where the first piece lies, and what is behind it. */
  lemma FirstPiece(s: text, i: nat, ps: seq<Piece>)
    requires ps != [] && i <= |s| && Sent(ps) <= s[i..]
    ensures var line := ps[0].blanks + ps[0].body + [13, 10];
      && line <= s[i..] && |Sent(ps)| == |line| + |Sent(ps[1..])|
      && i + |line| <= |s| && Sent(ps[1..]) <= s[i + |line|..] && s[i + |line| - 1] == LF
  {
    var line, rest := ps[0].blanks + ps[0].body + [13, 10], Sent(ps[1..]);
    assert Sent(ps) == line + rest;
    assert line == (line + rest)[..|line|] == s[i..][..|line|];
    assert s[i..][|line|..] == s[i + |line|..];
    assert rest == (line + rest)[|line|..];
    assert s[i + |line| - 1] == s[i..][|line| - 1] == line[|line| - 1];
  }

  lemma NextIsBlank(s: text, i: nat, ps: seq<Piece>)
    requires ps != [] && ps[0].blanks != [] && BlanksOk(ps[0].blanks) && i <= |s| && Sent(ps) <= s[i..]
    ensures Blank(At(s, i))
  {
    assert Sent(ps)[0] == ps[0].blanks[0];
    assert s[i] == s[i..][0];
  }

  lemma {:induction false} PiecesTaken(s: text, i: nat, ps: seq<Piece>, field: text, data: text)
    requires PiecesOk(ps) && i <= |s| && Sent(ps) <= s[i..] && !Blank(At(s, i + |Sent(ps)|))
    ensures ParseFrom(s, i, Parser(SkipWS, field, data, data != []))
         == Done(field, Glue(data, Unfolded(ps)), i + |Sent(ps)|)
    decreases |ps|
  {
    hide ParseFrom, Blank, Glue;
    var rest, all := ps[1..], Glue(data, ps[0].body);
    var k := i + |ps[0].blanks| + |ps[0].body|;
    FirstPiece(s, i, ps);
    PieceTaken(s, i, ps[0], field, data);
    LineFeedTaken(s, k + 1, Parser(ParseCRLF, field, all, all != []));
    GlueAssociates(data, ps[0].body, Unfolded(rest));
    if rest == [] {
      GlueNothing(ps[0].body);
      assert |Sent(rest)| == 0;
    } else {
      NextIsBlank(s, k + 2, rest);
      PiecesTaken(s, k + 2, rest, field, all);
    }
  }

  lemma GlueNothing(a: text)
    ensures Glue(a, []) == a && Glue([], a) == a
  {
  }

  lemma NameParts(s: text, name: text, sent: text, rest: text)
    requires s == name + [58] + sent + rest && (rest != [] ==> rest[0] != 32 && rest[0] != 9)
    ensures var m := |name|;
      && m < |s| && s[0..m] == name && s[m] == 58 && sent <= s[m + 1..] && !Blank(At(s, m + 1 + |sent|))
  {
    assert s[|name| + 1..] == sent + rest;
  }

  lemma NamedPieces(s: text, m: nat, name: text, ps: seq<Piece>)
    requires m < |s| && s[0..m] == name && 58 !in name && s[m] == 58
    requires PiecesOk(ps) && Sent(ps) <= s[m + 1..] && !Blank(At(s, m + 1 + |Sent(ps)|))
    ensures ParseFrom(s, 0, START) == Done(name, Unfolded(ps), m + 1 + |Sent(ps)|)
  {
    hide ParseFrom, Sent, Unfolded, PiecesOk, Glue;
    forall j | 0 <= j < m ensures s[j] != COLON {
      assert s[j] == s[0..m][j] == name[j];
    }
    FieldPhase(s, 0, m, START);
    assert [] + s[0..m] == name;
    PiecesTaken(s, m + 1, ps, name, []);
    GlueNothing(Unfolded(ps));
  }

  /** A name, ':' and any number of lines, the first perhaps empty, others perhaps of blanks alone:
      parsing gives the name, and the line bodies joined by one space each. */
  lemma ContinuedLineIsParsed(s: text, name: text, ps: seq<Piece>, rest: text)
    requires s == name + [58] + Sent(ps) + rest && 58 !in name && PiecesOk(ps)
    requires rest != [] ==> rest[0] != 32 && rest[0] != 9
    ensures ParseFrom(s, 0, START) == Done(name, Unfolded(ps), |name| + 1 + |Sent(ps)|)
  {
    hide *;
    NameParts(s, name, Sent(ps), rest);
    NamedPieces(s, |name|, name, ps);
  }

  // ----- a block that comes in pieces

  lemma PartLineIsNotFound(name: text, data: text, b: text)
    requires NameOk(name) && DataOk(data) && |b| < |LineOf(name, data)| && b == LineOf(name, data)[..|b|]
    ensures SearchFrom(b, 0, false) == -1
  {
    var line, m := LineOf(name, data), |name|;
    var k := m + 2 + |data|;
    LineParts(name, data, []);
    assert line + [] == line;
    forall j | 0 <= j < |b| && j < k ensures b[j] != CR {
      assert b[j] == line[j] == if j < m then name[j] else if j < m + 2 then [COLON, SP][j - m] else data[j - m - 2];
    }
    if |b| <= k {
      SearchSkips(b, 0, |b|);
    } else {
      SearchSkips(b, 0, k);
      assert b[k] == line[k] == CR;
      assert SearchFrom(b, k + 1, true) == -1;
    }
  }

  /** The buffer holds b, and u is still to come: what is complete is read, and no line that is not.
      A line being waited for is not complete. */
  ghost predicate PartRead(maps: seq<FieldMap>, fields: seq<Field>, body: text, u: text, r: Reading, k: nat)
    requires AllKnown(maps, fields)
  {
    && k <= |fields| && r.Stops? && r.fields == fields[..k] && AllKnown(maps, fields[k..])
    && r.rest + u == Block(maps, fields[k..]) + CRLF + body
    && if r.code == EOH then k == |fields| && |r.rest| >= 2
       else |r.rest| < if k < |fields| then |LineOf(LookupName(maps, fields[k].kind).value, fields[k].data)| else 2
  }

  lemma {:induction false} PartIsRead(maps: seq<FieldMap>, fields: seq<Field>, body: text, b: text, u: text)
      returns (k: nat)
    requires AllOk(maps, fields) && AllKnown(maps, fields)
    requires b + u == Block(maps, fields) + CRLF + body
    ensures PartRead(maps, fields, body, u, ReadAll(maps, b), k)
    decreases |fields|
  {
    assert fields[0..] == fields;
    if fields == [] {
      k := 0;
      EmptyLine(b, u, body);
      assert [] + CRLF + body == CRLF + body;
    } else {
      var f, rest := fields[0], fields[1..];
      assert FieldOk(maps, f);
      var line, tail := LineOf(LookupName(maps, f.kind).value, f.data), Block(maps, rest) + CRLF + body;
      ThreeParts(line, Block(maps, rest), CRLF, body);
      CutAtLine(b, u, line, tail);
      if |b| < |line| {
        k := 0;
        PartLineIsNotFound(LookupName(maps, f.kind).value, f.data, b);
      } else {
        var k' := PartIsRead(maps, rest, body, b[|line|..], u);
        FirstLineRead(maps, fields, body, b[|line|..], u, k');
        k := k' + 1;
      }
    }
  }

  lemma CutAtLine(b: text, u: text, line: text, tail: text)
    requires b + u == line + tail
    ensures if |b| < |line| then b == line[..|b|] else b == line + b[|line|..] && b[|line|..] + u == tail
  {
    if |b| < |line| {
      assert b == (b + u)[..|b|] == (line + tail)[..|b|] == line[..|b|];
    } else {
      assert line == (line + tail)[..|line|] == (b + u)[..|line|] == b[..|line|];
      assert tail == (line + tail)[|line|..] == (b + u)[|line|..];
    }
  }

  lemma FirstLineRead(maps: seq<FieldMap>, fields: seq<Field>, body: text, b: text, u: text, k: nat)
    requires AllOk(maps, fields) && AllKnown(maps, fields) && fields != []
    requires b + u == Block(maps, fields[1..]) + CRLF + body
    requires PartRead(maps, fields[1..], body, u, ReadAll(maps, b), k)
    ensures var line := LineOf(LookupName(maps, fields[0].kind).value, fields[0].data);
      PartRead(maps, fields, body, u, ReadAll(maps, line + b), k + 1)
  {
    hide ReadAll, Block, LineOf;
    var f, rest := fields[0], fields[1..];
    assert FieldOk(maps, f);
    BlockStartsUnblank(maps, rest, body);
    assert b != [] ==> b[0] == (b + u)[0];
    LineReadOff(maps, f, b);
    assert [f] + rest[..k] == fields[..k + 1] && rest[k..] == fields[k + 1..];
  }

  lemma ThreeParts(line: text, block: text, crlf: text, body: text)
    ensures line + block + crlf + body == line + (block + crlf + body)
  {
  }

  lemma EmptyLine(b: text, u: text, body: text)
    requires b + u == CRLF + body
    ensures SearchFrom(b, 0, false) == if |b| >= 2 then EOH else -1
  {
    if |b| >= 2 {
      assert b[0] == (b + u)[0] == CR && b[1] == (b + u)[1] == LF;
      assert SearchFrom(b, 0, false) == SearchFrom(b, 1, true);
    } else if |b| == 1 {
      assert SearchFrom(b, 0, false) == SearchFrom(b, 1, b[0] == CR);
    }
  }

  lemma LineReadOff(maps: seq<FieldMap>, f: Field, rest: text)
    requires FieldOk(maps, f) && !Blank(At(rest, 0))
    ensures var r, r1 := ReadAll(maps, LineOf(LookupName(maps, f.kind).value, f.data) + rest), ReadAll(maps, rest);
      r == if r1.Hangs? then Hangs else Stops([f] + r1.fields, r1.rest, r1.code)
  {
    var name := LookupName(maps, f.kind).value;
    var line := LineOf(name, f.data);
    LineIsFound(name, f.data, rest);
    LineIsParsed(name, f.data, rest);
    CStrWhole(name);
    CStrWhole(f.data);
    assert (line + rest)[|line|..] == rest;
  }

  /** The agent's outer loop: it reads, takes off what is complete, and goes on until the empty line. */
  datatype Receipt = Starved | Hung | Received(fields: seq<Field>, rest: text, unread: seq<text>)

  function Receive(maps: seq<FieldMap>, b: text, pieces: seq<text>): Receipt
    decreases |pieces|
  {
    if pieces == [] then Starved
    else
      match ReadAll(maps, b + pieces[0])
      case Hangs => Hung
      case Stops(fields, rest, code) =>
        if code == EOH && |rest| >= 2 then Received(fields, rest, pieces[1..])
        else
          match Receive(maps, rest, pieces[1..])
          case Received(more, last, unread) => Received(fields + more, last, unread)
          case other => other
  }

  function Joined(pieces: seq<text>): text {
    if pieces == [] then [] else pieces[0] + Joined(pieces[1..])
  }

  /** A printed block is read back as the same fields, into whatever pieces the reads cut it: a
      line in parts, an empty read, or many lines at once. */
  lemma {:induction false} AnyReadsGiveBlock(
      maps: seq<FieldMap>, fields: seq<Field>, body: text, b: text, pieces: seq<text>)
    requires AllOk(maps, fields) && AllKnown(maps, fields)
    requires b + Joined(pieces) == Block(maps, fields) + CRLF + body && |b| < |Block(maps, fields)| + 2
    ensures var r := Receive(maps, b, pieces);
      r.Received? && r.fields == fields && r.rest + Joined(r.unread) == CRLF + body
    decreases |pieces|
  {
    assert |b + Joined(pieces)| == |Block(maps, fields)| + 2 + |body|;
    var b1, u := b + pieces[0], Joined(pieces[1..]);
    assert b1 + u == b + Joined(pieces);
    var k := PartIsRead(maps, fields, body, b1, u);
    var r := ReadAll(maps, b1);
    if r.code == EOH {
      assert fields[..k] == fields && fields[k..] == [];
      assert [] + CRLF + body == CRLF + body;
    } else {
      WaitsForMore(maps, fields, k, |r.rest|);
      AnyReadsGiveBlock(maps, fields[k..], body, r.rest, pieces[1..]);
      assert fields[..k] + fields[k..] == fields;
    }
  }

  /** Every line, and the empty one at the end, fits a ring of n bytes. */
  ghost predicate LinesFit(maps: seq<FieldMap>, fields: seq<Field>, n: nat)
    requires AllKnown(maps, fields)
  {
    && 2 <= n
    && forall f :: f in fields ==> |LineOf(LookupName(maps, f.kind).value, f.data)| <= n
  }

  /** Less is in the buffer than the line that comes next. */
  ghost predicate Waiting(maps: seq<FieldMap>, fields: seq<Field>, k: nat, b: text)
    requires AllKnown(maps, fields)
  {
    k <= |fields| && AllKnown(maps, fields[k..])
    && |b| < if k < |fields| then |LineOf(LookupName(maps, fields[k].kind).value, fields[k].data)| else 2
  }

  /** The first k fields are read; the others are in the buffer b or still to come, in u. */
  ghost predicate Underway(maps: seq<FieldMap>, fields: seq<Field>, body: text, k: nat, b: text, u: text)
    requires AllKnown(maps, fields)
  {
    k <= |fields| && AllKnown(maps, fields[k..]) && b + u == Block(maps, fields[k..]) + CRLF + body
  }

  lemma NothingRead(maps: seq<FieldMap>, fields: seq<Field>)
    requires AllKnown(maps, fields)
    ensures Waiting(maps, fields, 0, [])
  {
    assert fields[0..] == fields;
  }

  lemma NothingLeft(maps: seq<FieldMap>, fields: seq<Field>, body: text, b: text, u: text)
    requires AllKnown(maps, fields) && Underway(maps, fields, body, |fields|, b, u)
    ensures b + u == CRLF + body
  {
    assert fields[|fields|..] == [];
    assert [] + CRLF + body == CRLF + body;
  }

  lemma PieceMoved(b: text, incoming: text, pos: nat, piece: text, n: nat)
    requires pos <= |incoming| && n <= |piece| && pos + |piece| <= |incoming| && piece == incoming[pos..pos + |piece|]
    ensures b + piece[..n] + incoming[pos + n..] == b + incoming[pos..]
  {
    assert incoming[pos..] == piece[..n] + incoming[pos + n..];
  }

  lemma ReadOn(maps: seq<FieldMap>, fields: seq<Field>, body: text, k: nat, b: text, u: text) returns (k': nat)
    requires AllOk(maps, fields) && AllKnown(maps, fields) && Underway(maps, fields, body, k, b, u)
    ensures k <= k' <= |fields|
    ensures var r := ReadAll(maps, b);
      && r.Stops? && r.fields == fields[k..k'] && Underway(maps, fields, body, k', r.rest, u)
      && if r.code == EOH then k' == |fields| && |r.rest| >= 2 else Waiting(maps, fields, k', r.rest)
  {
    hide ReadAll, Block, LineOf;
    var j := PartIsRead(maps, fields[k..], body, b, u);
    k' := k + j;
    assert fields[k..][..j] == fields[k..k'] && fields[k..][j..] == fields[k'..];
  }

  lemma StillWaiting(
      maps: seq<FieldMap>, fields: seq<Field>, body: text, k: nat, b: text, incoming: text, pos: nat, n: nat)
    requires AllKnown(maps, fields) && Waiting(maps, fields, k, b) && LinesFit(maps, fields, n)
    requires incoming == Block(maps, fields) + CRLF + body && pos <= |incoming|
    requires Underway(maps, fields, body, k, b, incoming[pos..])
    ensures |b| < n && pos < |incoming| && pos < |Block(maps, fields)| + 2
  {
    if k < |fields| {
      assert fields[k] in fields;
    }
    WaitsForMore(maps, fields, k, |b|);
    BlockShrinks(maps, fields, k);
    assert |b + incoming[pos..]| == |Block(maps, fields[k..])| + 2 + |body|;
  }

  lemma {:induction false} BlockShrinks(maps: seq<FieldMap>, fields: seq<Field>, k: nat)
    requires AllKnown(maps, fields) && k <= |fields|
    ensures AllKnown(maps, fields[k..]) && |Block(maps, fields[k..])| <= |Block(maps, fields)|
    decreases |fields|
  {
    if k == 0 {
      assert fields[0..] == fields;
    } else {
      BlockShrinks(maps, fields[1..], k - 1);
      assert fields[1..][k - 1..] == fields[k..];
    }
  }

  lemma WaitsForMore(maps: seq<FieldMap>, fields: seq<Field>, k: nat, n: nat)
    requires AllKnown(maps, fields) && k <= |fields|
    requires n < if k < |fields| then |LineOf(LookupName(maps, fields[k].kind).value, fields[k].data)| else 2
    ensures AllKnown(maps, fields[k..]) && n < |Block(maps, fields[k..])| + 2
  {
  }

  // ----- which texts the loop gets past

  /** CR LF at j, not followed by a continuation. */
  predicate LineEnd(s: text, j: nat) {
    j + 1 < |s| && s[j] == CR && s[j + 1] == LF && !Blank(At(s, j + 2))
  }

  /** A field of `length` bytes: the first line end behind the first colon from i on ends it. */
  ghost predicate FieldEnds(s: text, i: nat, length: nat) {
    && 2 <= length && LineEnd(s, length - 2)
    && (exists c :: i <= c < length - 2 && s[c] == COLON)
    && (forall c, j :: i <= c < j < length - 2 && s[c] == COLON ==> !LineEnd(s, j))
  }

  /** Behind the colon the automaton stops at the first line end, continuations or not. */
  lemma {:induction false} BehindColon(s: text, i: nat, p: Parser, length: nat)
    requires p.state != ParseField
    requires p.state == ParseCRLF ==> 1 <= i < |s| && s[i - 1] == CR && s[i] == LF
    ensures var from, r := if p.state == ParseCRLF then i - 1 else i, ParseFrom(s, i, p);
      r.Done? && r.length == length <==>
        from + 2 <= length && LineEnd(s, length - 2) && forall j :: from <= j < length - 2 ==> !LineEnd(s, j)
    decreases |s| - i
  {
    if i < |s| {
      if EndsField(s, i, p) {
        assert LineEnd(s, i - 1);
      } else {
        BehindColon(s, i + 1, StepParser(s, i, p), length);
        if p.state == ParseCRLF {
          assert !LineEnd(s, i - 1) && !LineEnd(s, i);
        } else if StepParser(s, i, p).state != ParseCRLF {
          assert !LineEnd(s, i);
        }
      }
    }
  }

  lemma {:induction false} FromField(s: text, i: nat, p: Parser, length: nat)
    requires p.state == ParseField
    ensures var r := ParseFrom(s, i, p);
      r.Done? && r.length == length <==> FieldEnds(s, i, length)
    decreases |s| - i
  {
    if i < |s| {
      if s[i] == COLON {
        BehindColon(s, i + 1, StepParser(s, i, p), length);
      } else {
        FromField(s, i + 1, StepParser(s, i, p), length);
      }
    }
  }

  /** parseLine succeeds exactly when a line end lies behind a colon, however many line ends lie before it. */
  lemma ParsesIff(s: text)
    ensures ParseFrom(s, 0, START).Done? <==> exists c, j :: 0 <= c < j && j < |s| && s[c] == COLON && LineEnd(s, j)
  {
    var r := ParseFrom(s, 0, START);
    if r.Done? {
      FromField(s, 0, START, r.length);
      var c :| 0 <= c < r.length - 2 && s[c] == COLON;
      assert LineEnd(s, r.length - 2);
    } else if c, j :| 0 <= c < j && j < |s| && s[c] == COLON && LineEnd(s, j) {
      var k := FirstEnd(s, c, j);
      FromField(s, 0, START, k + 2);
    }
  }

  /** The first line end with a colon before it. */
  lemma {:induction false} FirstEnd(s: text, c: nat, j: nat) returns (k: nat)
    requires c < j < |s| && s[c] == COLON && LineEnd(s, j)
    ensures FieldEnds(s, 0, k + 2)
    decreases j
  {
    k := j;
    if c', j' :| 0 <= c' < j' < j && s[c'] == COLON && LineEnd(s, j') {
      k := FirstEnd(s, c', j');
    }
  }

  lemma {:induction false} FoundIsLineEnd(s: text, i: nat, haveCR: bool)
    requires haveCR ==> 1 <= i <= |s| && s[i - 1] == CR
    ensures var r := SearchFrom(s, i, haveCR); r > 0 ==> 2 <= r && LineEnd(s, r - 2)
    decreases |s| - i
  {
    if i < |s| {
      if !haveCR {
        FoundIsLineEnd(s, i + 1, s[i] == CR);
      } else if s[i] != LF || Blank(At(s, i + 1)) {
        FoundIsLineEnd(s, i + 1, false);
      }
    }
  }

  /** How many CRs stand directly in front of i. */
  function CRsBefore(s: text, i: nat): nat
    requires i <= |s|
  {
    if i == 0 || s[i - 1] != 13 then 0 else 1 + CRsBefore(s, i - 1)
  }

  /** A line end that searchForLine sees: of a run of CRs it takes every second for a wrong start. */
  predicate Seen(s: text, j: nat) {
    j < |s| && LineEnd(s, j) && CRsBefore(s, j + 1) % 2 == 1
  }

  lemma {:induction false} SearchFromIs(s: text, i: nat, haveCR: bool)
    requires i <= |s| && (haveCR <==> CRsBefore(s, i) % 2 == 1) && !(i <= 1 < |s| && s[0] == CR && s[1] == LF)
    ensures var r := SearchFrom(s, i, haveCR);
      if r == -1 then forall j: nat :: i - 1 <= j < |s| ==> !Seen(s, j)
      else i + 1 <= r && 3 <= r && Seen(s, r - 2) && forall j: nat :: i - 1 <= j < r - 2 ==> !Seen(s, j)
    decreases |s| - i
  {
    if i < |s| {
      if !haveCR {
        assert i > 0 ==> !Seen(s, i - 1);
        SearchFromIs(s, i + 1, s[i] == CR);
      } else if s[i] != LF || Blank(At(s, i + 1)) {
        assert !Seen(s, i - 1);
        SearchFromIs(s, i + 1, false);
      } else {
        assert LineEnd(s, i - 1) && Seen(s, i - 1);
      }
    } else {
      assert i > 0 ==> !LineEnd(s, i - 1);
    }
  }

  /** In every text: 0 for an empty line in front, else the length up to the first line end seen, or -1. */
  lemma SearchIs(s: text)
    ensures var r := SearchFrom(s, 0, false);
      if |s| >= 2 && s[0] == 13 && s[1] == 10 then r == 0
      else if r == -1 then forall j: nat :: !Seen(s, j)
      else 3 <= r <= |s| && Seen(s, r - 2) && forall j: nat :: j < r - 2 ==> !Seen(s, j)
  {
    if |s| >= 2 && s[0] == 13 && s[1] == 10 {
      assert SearchFrom(s, 0, false) == SearchFrom(s, 1, true);
    } else {
      SearchFromIs(s, 0, false);
    }
  }

  /** Both functions give a line the same length exactly when it holds a colon, and no line end
      behind the colon that searchForLine has overlooked. */
  lemma LengthsAgreeIff(s: text)
    requires SearchFrom(s, 0, false) > 0
    ensures var found, r := SearchFrom(s, 0, false), ParseFrom(s, 0, START);
      r.Done? && r.length == found <==>
        && (exists c :: 0 <= c < found - 2 && c < |s| && s[c] == COLON)
        && (forall c, j :: 0 <= c < j < found - 2 && c < |s| && s[c] == COLON ==> !LineEnd(s, j))
  {
    FoundIsLineEnd(s, 0, false);
    FromField(s, 0, START, SearchFrom(s, 0, false));
  }

  /** A line is found, but no line end lies behind a colon. */
  ghost predicate Stuck(s: text) {
    && SearchFrom(s, 0, false) > 0
    && forall c, j :: 0 <= c < j < |s| && s[c] == COLON ==> !LineEnd(s, j)
  }

  /** The loop takes n fields off the text, and what is left is stuck. */
  ghost predicate StuckAfter(s: text, n: nat)
    decreases n
  {
    if n == 0 then Stuck(s) else exists length: nat :: TakesField(s, length) && StuckAfter(s[length..], n - 1)
  }

  /** A line is found, and a field of `length` bytes is parsed. */
  ghost predicate TakesField(s: text, length: nat) {
    SearchFrom(s, 0, false) > 0 && length <= |s| && FieldEnds(s, 0, length)
  }

  lemma TakesWhatParses(s: text, length: nat)
    ensures var r := ParseFrom(s, 0, START);
      TakesField(s, length) <==> SearchFrom(s, 0, false) > 0 && r.Done? && r.length == length
  {
    FromField(s, 0, START, length);
  }

  lemma StuckMeansFailed(s: text)
    ensures Stuck(s) <==> SearchFrom(s, 0, false) > 0 && ParseFrom(s, 0, START).Failed?
  {
    ParsesIff(s);
  }

  /** The loop hangs exactly when it comes to a rest in which a line is found and no line end
      lies behind a colon. */
  lemma {:induction false} HangsIff(maps: seq<FieldMap>, s: text)
    ensures ReadAll(maps, s).Hangs? <==> exists n: nat :: StuckAfter(s, n)
    decreases |s|
  {
    hide FieldEnds, Stuck, ParseFrom, SearchFrom;
    var r := ParseFrom(s, 0, START);
    StuckMeansFailed(s);
    if SearchFrom(s, 0, false) <= 0 || r.Failed? {
      forall length: nat ensures !TakesField(s, length) {
        TakesWhatParses(s, length);
      }
      assert StuckAfter(s, 0) <==> Stuck(s);
    } else {
      var rest := s[r.length..];
      HangsIff(maps, rest);
      TakesWhatParses(s, r.length);
      if n: nat :| StuckAfter(rest, n) {
        assert StuckAfter(s, n + 1);
      }
      if n: nat :| StuckAfter(s, n) {
        assert n != 0;
        var length: nat :| TakesField(s, length) && StuckAfter(s[length..], n - 1);
        TakesWhatParses(s, length);
        assert StuckAfter(rest, n - 1);
      }
    }
  }

  /** In particular, a buffer with a line and no colon at all hangs the loop. */
  lemma NoColonHangs(maps: seq<FieldMap>, s: text)
    requires COLON !in s && SearchFrom(s, 0, false) > 0
    ensures ReadAll(maps, s) == Hangs
  {
    assert StuckAfter(s, 0);
    HangsIff(maps, s);
  }

  /** A colon in what was read so far does not help if its line is not complete. */
  lemma PartLineHangs(maps: seq<FieldMap>)
    ensures var s := [97, CR, LF, 98, COLON, 99];
      SearchFrom(s, 0, false) == 3 && ReadAll(maps, s) == Hangs
  {
    var s := [97, CR, LF, 98, COLON, 99];
    SearchFindsLine(s, 1);
    assert forall j :: 4 < j < |s| ==> s[j] == 99;
    assert Stuck(s);
    assert StuckAfter(s, 0);
    HangsIff(maps, s);
  }

  /** Once it is complete, the line without a colon is taken for a part of the next field's name. */
  lemma LinesAreJoined(maps: seq<FieldMap>)
    ensures var s := [97, CR, LF, 98, COLON, 99, CR, LF, CR, LF];
      && SearchFrom(s, 0, false) == 3 && ParseFrom(s, 0, START) == Done([97, CR, LF, 98], [99], 8)
      && ReadAll(maps, s).Stops?
  {
    var s := [97, CR, LF, 98, COLON, 99, CR, LF, CR, LF];
    var name := [97, CR, LF, 98];
    SearchFindsLine(s, 1);
    FieldPhase(s, 0, 4, START);
    assert [] + s[0..4] == name;
    DataIsParsed(s, 5, 6, Parser(SkipWS, name, [], false), [99]);
    assert s[8..] == CRLF;
    assert SearchFrom(CRLF, 0, false) == EOH;
  }

  // ----- the header object

  class Header {
    const maps: seq<FieldMap>
    const mFields: array<Field>
    var numFields: nat
    var headerStr: text

    ghost predicate Valid()
      reads this
    {
      mFields.Length == MAX_FIELDS && numFields <= MAX_FIELDS
    }

    ghost function Fields(): seq<Field>
      requires Valid()
      reads this, mFields
    {
      mFields[..numFields]
    }

    constructor (maps: seq<FieldMap>)
      ensures Valid() && Fields() == [] && headerStr == [] && this.maps == maps && fresh(mFields)
    {
      this.maps := maps;
      mFields := new Field[MAX_FIELDS](_ => Field(0, []));
      numFields, headerStr := 0, [];
    }

    /** Refused when the table is full; otherwise a header already built is dropped. */
    method AddField(kind: int, data: text) returns (ok: bool)
      requires Valid()
      modifies this, mFields
      ensures Valid() && ok == (old(|Fields()|) < 32)
      ensures Fields() == old(Fields()) + if ok then [Field(kind, CStr(data))] else []
      ensures headerStr == if ok then [] else old(headerStr)
    {
      if numFields >= MAX_FIELDS {
        return false;
      }
      mFields[numFields] := Field(kind, CStr(data));
      numFields := numFields + 1;
      headerStr := [];
      return true;
    }

    /** The first field of that kind. */
    method GetField(kind: int) returns (r: Option<text>)
      requires Valid()
      ensures r == FirstOf(Fields(), kind)
      ensures r == None <==> forall j :: 0 <= j < |Fields()| ==> Fields()[j].kind != kind
      ensures r != None ==> exists j ::
        && 0 <= j < |Fields()| && Fields()[j] == Field(kind, r.value)
        && forall i :: 0 <= i < j ==> Fields()[i].kind != kind
    {
      FirstDecides(Fields(), kind);
      var i := 0;
      while i < numFields
        invariant 0 <= i <= numFields && FirstOf(Fields(), kind) == FirstOf(Fields()[i..], kind)
      {
        if mFields[i].kind == kind {
          return Some(mFields[i].data);
        }
        assert Fields()[i..][1..] == Fields()[i + 1..];
        i := i + 1;
      }
      return None;
    }

    method GetFieldType(name: text) returns (kind: int)
      ensures kind == LookupType(maps, name)
      ensures kind == -1 <==> forall j :: 0 <= j < |maps| ==> maps[j].typeOf(name) == -1
      ensures kind != -1 ==> exists j ::
        0 <= j < |maps| && maps[j].typeOf(name) == kind && forall i :: 0 <= i < j ==> maps[i].typeOf(name) == -1
    {
      FirstTypeDecides(maps, name);
      kind := INVALID_FIELD_TYPE;
      var i := 0;
      while i < |maps|
        invariant 0 <= i <= |maps| && kind == INVALID_FIELD_TYPE
        invariant LookupType(maps, name) == LookupType(maps[i..], name)
      {
        kind := maps[i].typeOf(name);
        if kind != INVALID_FIELD_TYPE {
          break;
        }
        assert maps[i..][1..] == maps[i + 1..];
        i := i + 1;
      }
    }

    method GetFieldTypeString(kind: int) returns (name: Option<text>)
      ensures name == LookupName(maps, kind)
      ensures name == None <==> forall j :: 0 <= j < |maps| ==> maps[j].nameOf(kind) == None
      ensures name != None ==> exists j ::
        0 <= j < |maps| && maps[j].nameOf(kind) == name && forall i :: 0 <= i < j ==> maps[i].nameOf(kind) == None
    {
      FirstNameDecides(maps, kind);
      name := None;
      var i := 0;
      while i < |maps|
        invariant 0 <= i <= |maps| && name == None
        invariant LookupName(maps, kind) == LookupName(maps[i..], kind)
      {
        name := maps[i].nameOf(kind);
        if name != None {
          break;
        }
        assert maps[i..][1..] == maps[i + 1..];
        i := i + 1;
      }
    }

    method AppendLine(kind: int, data: text)
      requires LookupName(maps, kind).Some?
      modifies this`headerStr
      ensures headerStr == old(headerStr) + LineOf(LookupName(maps, kind).value, data)
    {
      var name := GetFieldTypeString(kind);
      ghost var before := headerStr;
      headerStr := headerStr + name.value;
      headerStr := headerStr + [COLON, SP];
      headerStr := headerStr + data;
      headerStr := headerStr + CRLF;
      Reassociate(before, name.value, [COLON, SP], data, CRLF);
    }

    /** `firstLine` is what buildFirstLine of the derived class appends. */
    method BuildHeader(firstLine: text)
      requires Valid() && AllKnown(maps, Fields()) && headerStr == []
      modifies this`headerStr
      ensures headerStr == if firstLine == [] then [] else firstLine + Block(maps, Fields()) + CRLF
    {
      hide LookupName, LineOf;
      headerStr := headerStr + firstLine;
      if |firstLine| <= 0 {
        headerStr := [];
        return;
      }
      ghost var fs := Fields();
      var i := 0;
      while i < numFields
        invariant 0 <= i <= numFields && Fields() == fs
        invariant AllKnown(maps, fs[..i]) && headerStr == firstLine + Block(maps, fs[..i])
      {
        assert mFields[i] == fs[i] && fs[i] in fs;
        BlockSnoc(maps, fs[..i], fs[i]);
        assert fs[..i] + [fs[i]] == fs[..i + 1];
        AppendLine(mFields[i].kind, mFields[i].data);
        i := i + 1;
      }
      assert fs[..i] == fs;
      headerStr := headerStr + CRLF;
    }

    static method SearchForLine(buffer: CircularBuffer) returns (r: int)
      requires buffer.Valid()
      ensures r == SearchFrom(buffer.contents, 0, false)
    {
      var haveCR, length, i := false, 1, 0;
      while i < buffer.len
        invariant 0 <= i <= buffer.len && length == i + 1 && buffer.Valid()
        invariant SearchFrom(buffer.contents, 0, false) == SearchFrom(buffer.contents, i, haveCR)
      {
        var c := buffer.ByteAt(i);
        if c == -1 {
          return -1;
        }
        if !haveCR {
          if c == CR {
            haveCR := true;
          }
        } else {
          if c == LF {
            c := buffer.ByteAt(i + 1);
            if length == 2 {
              return EOH;
            } else if c == SP || c == TAB {
              haveCR := false;
            } else {
              return length;
            }
          } else {
            haveCR := false;
          }
        }
        i, length := i + 1, length + 1;
      }
      return -1;
    }

    /** The field of a parsed line fits the table. */
    ghost predicate HasRoom(p: Parsed)
      requires p.Done?
      reads this
    {
      numFields + |Stored(maps, p)| <= MAX_FIELDS
    }

    /** The end of a field in parseLine: it goes into the table if its name is known.  The code
        does not check for room: `overrun` stands for the write beyond the table. */
    method StoreKnown(field: text, data: text, ghost length: nat) returns (overrun: bool)
      requires Valid()
      modifies this`numFields, mFields
      ensures Valid() && (overrun <==> !old(HasRoom(Done(field, data, length))))
      ensures Fields() == old(Fields()) + if overrun then [] else Stored(maps, Done(field, data, length))
    {
      var kind := GetFieldType(CStr(field));
      if kind != INVALID_FIELD_TYPE {
        if numFields == MAX_FIELDS {
          return true;
        }
        mFields[numFields] := Field(kind, CStr(data));
        numFields := numFields + 1;
      }
      return false;
    }

    /** Parses one field and stores it if it is known. */
    method ParseLine(buffer: CircularBuffer) returns (r: int, overrun: bool)
      requires Valid() && buffer.Valid()
      modifies this, mFields
      ensures Valid() && headerStr == old(headerStr)
      ensures var p := ParseFrom(buffer.contents, 0, START);
        && r == (if p.Failed? then -1 else p.length)
        && (overrun <==> p.Done? && !old(HasRoom(p)))
        && Fields() == old(Fields()) + if p.Failed? || overrun then [] else Stored(maps, p)
    {
      hide Stored;
      ghost var s, p := buffer.contents, ParseFrom(buffer.contents, 0, START);
      var state, field: text, data: text, appendSpace := ParseField, [], [], false;
      var length, i := 1, 0;
      while i < buffer.len
        invariant 0 <= i <= buffer.len && length == i + 1
        invariant Valid() && buffer.Valid() && Fields() == old(Fields()) && headerStr == old(headerStr)
        invariant numFields == old(numFields)
        invariant buffer.contents == s && p == ParseFrom(s, i, Parser(state, field, data, appendSpace))
        decreases buffer.len - i
      {
        var c := buffer.ByteAt(i);
        if c == -1 {
          return -1, false;
        }
        var next := buffer.ByteAt(i + 1);
        if state == ParseField {
          if c == COLON {
            state := SkipWS;
            appendSpace := false;
          } else {
            field := field + [c];
          }
        } else if state == ParseData {
          if c == CR && next == LF {
            state := ParseCRLF;
            appendSpace := true;
          } else {
            data := data + [c];
          }
        } else if state == ParseCRLF {
          if c == LF {
            if next == SP || next == TAB {
              state := SkipWS;
            } else {
              overrun := StoreKnown(field, data, length);
              return length, overrun;
            }
          }
        } else {
          if c == CR && next == LF {
            state := ParseCRLF;
          } else if c != TAB && c != SP {
            if appendSpace {
              assert data + [SP] + [c] == data + [SP, c];
              data := data + [SP];
              appendSpace := false;
            }
            data := data + [c];
            state := ParseData;
          }
        }
        i, length := i + 1, length + 1;
      }
      return -1, false;
    }

    /** The agent's loop, over a buffer on which it comes to an end; it overruns the table exactly
        when there are more known fields than room. */
    method ReadFields(buffer: CircularBuffer) returns (code: int, overrun: bool)
      requires Valid() && buffer.Valid() && ReadAll(maps, buffer.contents).Stops?
      modifies this, mFields, buffer
      ensures Valid() && buffer.Valid()
      ensures var o := ReadAll(maps, old(buffer.contents));
        && (overrun <==> old(numFields) + |o.fields| > MAX_FIELDS)
        && (!overrun ==> code == o.code && buffer.contents == o.rest && Fields() == old(Fields()) + o.fields)
    {
      ghost var all := Fields() + ReadAll(maps, buffer.contents).fields;
      overrun := false;
      code := SearchForLine(buffer);
      while code > 0
        invariant Valid() && buffer.Valid() && !overrun
        invariant code == SearchFrom(buffer.contents, 0, false)
        invariant var o, o1 := ReadAll(maps, old(buffer.contents)), ReadAll(maps, buffer.contents);
          && o1.Stops? && numFields + |o1.fields| == |all|
          && o.code == o1.code && o.rest == o1.rest
          && all == Fields() + o1.fields
        decreases |buffer.contents|
      {
        ReadAllUnfolds(maps, buffer.contents, Fields());
        var length;
        length, overrun := ParseLine(buffer);
        if overrun {
          return;
        }
        if length >= 0 {
          var _ := buffer.Read(null, length);
        }
        code := SearchForLine(buffer);
      }
    }

    /** One turn of the agent's outer loop: a read of at most `size` bytes, and the loop over lines. */
    method ReceiveOnce(buffer: CircularBuffer, incoming: text, pos: nat, size: nat,
        ghost fields: seq<Field>, ghost body: text, ghost k: nat) returns (next: nat, code: int, ghost k': nat)
      requires Valid() && buffer.Valid() && size > 0 && AllOk(maps, fields) && AllKnown(maps, fields)
      requires incoming == Block(maps, fields) + CRLF + body && LinesFit(maps, fields, buffer.data.Length)
      requires Waiting(maps, fields, k, buffer.contents) && numFields + |fields| - k <= MAX_FIELDS
      requires pos <= |incoming| && Underway(maps, fields, body, k, buffer.contents, incoming[pos..])
      modifies this, mFields, buffer, buffer.data
      ensures Valid() && buffer.Valid() && pos < next <= |incoming|
      ensures k <= k' <= |fields| && Fields() == old(Fields()) + fields[k..k']
      ensures Underway(maps, fields, body, k', buffer.contents, incoming[next..])
      ensures if code == EOH then k' == |fields| && |buffer.contents| >= 2
              else Waiting(maps, fields, k', buffer.contents)
    {
      hide Block, LineOf, ReadAll;
      StillWaiting(maps, fields, body, k, buffer.contents, incoming, pos, buffer.data.Length);
      ghost var b := buffer.contents;
      var piece := incoming[pos..Min(pos + size, |incoming|)];
      var res := buffer.FillFromFile(Pending(piece), buffer.GetFreeSpace());
      next := pos + res;
      PieceMoved(b, incoming, pos, piece, res);
      k' := ReadOn(maps, fields, body, k, buffer.contents, incoming[next..]);
      var overrun;
      code, overrun := ReadFields(buffer);
    }

    /** The agent's outer loop on a stream that begins with a printed block.  Read number i delivers
        at most sizes[i] bytes; `pos` of them all have been taken off the stream in the end. */
    method ReceiveFields(buffer: CircularBuffer, incoming: text, sizes: seq<nat>,
        ghost fields: seq<Field>, ghost body: text) returns (pos: nat)
      requires Valid() && buffer.Valid() && buffer.contents == []
      requires AllOk(maps, fields) && AllKnown(maps, fields) && numFields + |fields| <= MAX_FIELDS
      requires incoming == Block(maps, fields) + CRLF + body
      requires LinesFit(maps, fields, buffer.data.Length)
      requires |sizes| >= |Block(maps, fields)| + 2 && forall i :: 0 <= i < |sizes| ==> sizes[i] > 0
      modifies this, mFields, buffer, buffer.data
      ensures Valid() && buffer.Valid() && Fields() == old(Fields()) + fields
      ensures pos <= |incoming| && buffer.contents + incoming[pos..] == CRLF + body
    {
      hide Block, LineOf;
      pos := 0;
      var i, code := 0, -1;
      ghost var k := 0;
      assert fields[0..] == fields && incoming[0..] == incoming;
      NothingRead(maps, fields);
      while code != EOH
        invariant Valid() && buffer.Valid() && k <= |fields| && Fields() == old(Fields()) + fields[..k]
        invariant i <= pos <= |incoming| && Underway(maps, fields, body, k, buffer.contents, incoming[pos..])
        invariant if code == EOH then k == |fields| else Waiting(maps, fields, k, buffer.contents)
        decreases |sizes| - i, if code == EOH then 0 else 1
      {
        StillWaiting(maps, fields, body, k, buffer.contents, incoming, pos, buffer.data.Length);
        ghost var k';
        pos, code, k' := ReceiveOnce(buffer, incoming, pos, sizes[i], fields, body, k);
        assert fields[..k] + fields[k..k'] == fields[..k'];
        i, k := i + 1, k';
      }
      assert fields[..k] == fields;
      NothingLeft(maps, fields, body, buffer.contents, incoming[pos..]);
    }
  }

  /** One turn of the agent's loop that ends, `kept` being stored before it. */
  lemma ReadAllUnfolds(maps: seq<FieldMap>, s: text, kept: seq<Field>)
    requires SearchFrom(s, 0, false) > 0 && ReadAll(maps, s).Stops?
    ensures var p := ParseFrom(s, 0, START);
      && p.Done?
      && var o, o1, stored := ReadAll(maps, s), ReadAll(maps, s[p.length..]), Stored(maps, p);
         && o1.Stops? && o.rest == o1.rest && o.code == o1.code
         && |o.fields| == |stored| + |o1.fields| && kept + o.fields == (kept + stored) + o1.fields
  {
    hide ParseFrom, SearchFrom, Stored;
  }

  lemma Reassociate(a: text, b: text, c: text, d: text, e: text)
    ensures a + b + c + d + e == a + (b + c + d + e)
  {
  }

  lemma {:induction false} FirstDecides(fields: seq<Field>, kind: int)
    ensures var r := FirstOf(fields, kind);
      && (r == None <==> forall j :: 0 <= j < |fields| ==> fields[j].kind != kind)
      && (r != None ==> exists j ::
            0 <= j < |fields| && fields[j] == Field(kind, r.value) && forall i :: 0 <= i < j ==> fields[i].kind != kind)
  {
    if fields != [] && fields[0].kind != kind {
      var rest := fields[1..];
      FirstDecides(rest, kind);
      assert forall i :: 0 <= i < |rest| ==> rest[i] == fields[i + 1];
      if j :| 0 <= j < |rest| && rest[j].kind == kind && forall i :: 0 <= i < j ==> rest[i].kind != kind {
        assert fields[j + 1] == rest[j];
        assert forall i :: 0 < i < j + 1 ==> fields[i] == rest[i - 1];
      }
    } else if fields != [] {
      assert fields[0] == Field(kind, fields[0].data);
    }
  }

  lemma {:induction false} FirstTypeDecides(maps: seq<FieldMap>, name: text)
    ensures var r := LookupType(maps, name);
      && (r == -1 <==> forall j :: 0 <= j < |maps| ==> maps[j].typeOf(name) == -1)
      && (r != -1 ==> exists j ::
            0 <= j < |maps| && maps[j].typeOf(name) == r && forall i :: 0 <= i < j ==> maps[i].typeOf(name) == -1)
  {
    if maps != [] && maps[0].typeOf(name) == -1 {
      var rest, r := maps[1..], LookupType(maps, name);
      FirstTypeDecides(rest, name);
      assert forall i :: 0 <= i < |rest| ==> rest[i] == maps[i + 1];
      assert forall i :: 0 < i < |maps| ==> maps[i] == rest[i - 1];
      if j :| 0 <= j < |rest| && rest[j].typeOf(name) == r && forall i :: 0 <= i < j ==> rest[i].typeOf(name) == -1 {
        assert maps[j + 1] == rest[j];
      }
    }
  }

  lemma {:induction false} FirstNameDecides(maps: seq<FieldMap>, kind: int)
    ensures var r := LookupName(maps, kind);
      && (r == None <==> forall j :: 0 <= j < |maps| ==> maps[j].nameOf(kind) == None)
      && (r != None ==> exists j ::
            0 <= j < |maps| && maps[j].nameOf(kind) == r && forall i :: 0 <= i < j ==> maps[i].nameOf(kind) == None)
  {
    if maps != [] && maps[0].nameOf(kind) == None {
      var rest, r := maps[1..], LookupName(maps, kind);
      FirstNameDecides(rest, kind);
      assert forall i :: 0 <= i < |rest| ==> rest[i] == maps[i + 1];
      assert forall i :: 0 < i < |maps| ==> maps[i] == rest[i - 1];
      if j :| 0 <= j < |rest| && rest[j].nameOf(kind) == r && forall i :: 0 <= i < j ==> rest[i].nameOf(kind) == None {
        assert maps[j + 1] == rest[j];
      }
    }
  }

  /** The 33rd known field: 32 are added by hand, one more is parsed. */
  method OverrunIsReached() returns (overrun: bool)
    ensures overrun
  {
    var fieldMap := FieldMap(
      name => if name == [97] then 1 else INVALID_FIELD_TYPE, kind => if kind == 1 then Some([97]) else None);
    var header := new Header([fieldMap]);
    for i := 0 to MAX_FIELDS
      invariant header.Valid() && header.numFields == i && fresh(header.mFields)
    {
      var _ := header.AddField(1, []);
    }
    var ring := new CircularBuffer(4);
    var line := new byte[4] [97, COLON, CR, LF];
    var _ := ring.Write(line, 4);
    assert ring.contents == [97, COLON, CR, LF];
    FieldPhase(ring.contents, 0, 1, START);
    assert [] + ring.contents[0..1] == [97];
    DataIsParsed(ring.contents, 2, 2, Parser(SkipWS, [97], [], false), []);
    CStrWhole([97]);
    assert LookupType([fieldMap], [97]) == 1;
    var _, o := header.ParseLine(ring);
    overrun := o;
  }

  function FirstOf(fields: seq<Field>, kind: int): Option<text> {
    if fields == [] then None
    else if fields[0].kind == kind then Some(fields[0].data)
    else FirstOf(fields[1..], kind)
  }

  lemma {:induction false} BlockSnoc(maps: seq<FieldMap>, fields: seq<Field>, f: Field)
    requires AllKnown(maps, fields) && LookupName(maps, f.kind).Some?
    ensures AllKnown(maps, fields + [f])
    ensures Block(maps, fields + [f]) == Block(maps, fields) + LineOf(LookupName(maps, f.kind).value, f.data)
  {
    if fields == [] {
      assert ([f])[1..] == [];
    } else {
      assert (fields + [f])[1..] == fields[1..] + [f];
      BlockSnoc(maps, fields[1..], f);
    }
  }
}
