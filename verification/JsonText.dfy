/** JSON text as a concrete syntax tree: every way to space it and to escape its strings. */
module JsonText {
  import opened Bytes

  const QUOTE: byte := 34
  const BACKSLASH: byte := 92
  const COMMA: byte := 44
  const COLON: byte := 58
  const MINUS: byte := 45
  const LBRACE: byte := 123
  const RBRACE: byte := 125
  const LBRACKET: byte := 91
  const RBRACKET: byte := 93
  const LOWER_U: byte := 117
  const TRUE_WORD: bytes := [116, 114, 117, 101]
  const FALSE_WORD: bytes := [102, 97, 108, 115, 101]
  const NULL_WORD: bytes := [110, 117, 108, 108]

  predicate IsSpace(c: byte) { c == 32 || c == 10 || c == 13 || c == 9 }

  predicate IsDigit(c: byte) { 48 <= c <= 57 }

  /** Bytes that end a number. */
  predicate EndsScalar(c: byte) { IsSpace(c) || c == COMMA || c == RBRACKET || c == RBRACE }

  // ---- UTF-8 ----

  predicate Continues(b: bytes, i: nat, low: byte, high: byte) { i < |b| && low <= b[i] <= high }

  /** Width of the UTF-8 sequence at `i`, or 0 when there is no well-formed one. */
  function Utf8Width(b: bytes, i: nat): (w: nat)
    ensures w == 0 || (w <= 4 && i + w <= |b|)
  {
    if i >= |b| then 0
    else
      var c := b[i];
      if c < 0x80 then 1
      else if 0xC2 <= c <= 0xDF && Continues(b, i + 1, 0x80, 0xBF) then 2
      else if 0xE0 <= c <= 0xEF && Continues(b, i + 2, 0x80, 0xBF)
              && Continues(b, i + 1, if c == 0xE0 then 0xA0 else 0x80, if c == 0xED then 0x9F else 0xBF) then 3
      else if 0xF0 <= c <= 0xF4 && Continues(b, i + 2, 0x80, 0xBF) && Continues(b, i + 3, 0x80, 0xBF)
              && Continues(b, i + 1, if c == 0xF0 then 0x90 else 0x80, if c == 0xF4 then 0x8F else 0xBF) then 4
      else 0
  }

  /** Everything from `i` on is well-formed UTF-8. */
  predicate Utf8From(b: bytes, i: nat)
    decreases |b| - i
  {
    i >= |b| || (Utf8Width(b, i) > 0 && Utf8From(b, i + Utf8Width(b, i)))
  }

  /** The scalar value a well-formed sequence of width `|c|` encodes. */
  function Scalar(c: bytes): nat
    requires 0 < |c| <= 4
  {
    if |c| == 1 then c[0] as nat
    else if |c| == 2 then (c[0] as nat % 32) * 64 + c[1] as nat % 64
    else if |c| == 3 then ((c[0] as nat % 16) * 64 + c[1] as nat % 64) * 64 + c[2] as nat % 64
    else (((c[0] as nat % 8) * 64 + c[1] as nat % 64) * 64 + c[2] as nat % 64) * 64 + c[3] as nat % 64
  }

  /** How many bytes a scalar value takes in UTF-8. */
  function ScalarWidth(scalar: nat): (w: nat)
    ensures 1 <= w <= 4
  {
    if scalar < 0x80 then 1 else if scalar < 0x800 then 2 else if scalar < 0x10000 then 3 else 4
  }

  // ---- Hexadecimal ----

  predicate IsHex(c: byte) { IsDigit(c) || 65 <= c <= 70 || 97 <= c <= 102 }

  function HexValue(c: byte): nat
    requires IsHex(c)
  {
    (if IsDigit(c) then c - 48 else if c <= 70 then c - 55 else c - 87) as nat
  }

  predicate IsHex4(h: bytes) { |h| == 4 && IsHex(h[0]) && IsHex(h[1]) && IsHex(h[2]) && IsHex(h[3]) }

  function Hex4(h: bytes): (v: nat)
    requires IsHex4(h)
  {
    ((HexValue(h[0]) * 16 + HexValue(h[1])) * 16 + HexValue(h[2])) * 16 + HexValue(h[3])
  }

  predicate HighSurrogate(v: nat) { 0xD800 <= v <= 0xDBFF }
  predicate LowSurrogate(v: nat) { 0xDC00 <= v <= 0xDFFF }

  function Combine(high: nat, low: nat): nat
    requires HighSurrogate(high) && LowSurrogate(low)
  {
    0x10000 + (high - 0xD800) * 0x400 + (low - 0xDC00)
  }

  predicate IsShort(c: byte) {
    c == QUOTE || c == BACKSLASH || c == 47 || c == 98 || c == 102 || c == 110 || c == 114 || c == 116
  }

  function ShortScalar(c: byte): nat {
    if c == 98 then 8 else if c == 102 then 12 else if c == 110 then 10 else if c == 114 then 13
    else if c == 116 then 9 else c as nat
  }

  // ---- The tree ----

  /** One character of a string as it is written: itself, a short escape, `\u` or a `\u` pair. */
  datatype Piece = Raw(utf8: bytes) | Short(code: byte) | Unit(hex: bytes) | Pair(high: bytes, low: bytes)

  datatype Pieces = End | Then(piece: Piece, rest: Pieces)

  /** A value with the white space before and after it. */
  datatype Elem = Elem(lead: bytes, value: Json, trail: bytes)

  datatype Elems = NoElem | Elems(elem: Elem, rest: Elems)

  /** A member: white space, its key, white space before the colon, and its value. */
  datatype Member = Member(lead: bytes, key: Pieces, gap: bytes, elem: Elem)

  datatype Members = NoMember | Members(member: Member, rest: Members)

  /** `gap` is the white space inside an empty array or object. */
  datatype Json =
    | Null | True | False
    | Number(text: bytes)
    | Str(pieces: Pieces)
    | Arr(items: Elems, gap: bytes)
    | Obj(members: Members, gap: bytes)

  // ---- Well-formed trees ----

  predicate AllSpace(s: bytes) { forall i :: 0 <= i < |s| ==> IsSpace(s[i]) }

  predicate PieceOk(p: Piece) {
    match p
    case Raw(c) => c != [] && |c| == Utf8Width(c, 0) && c[0] >= 0x20 && c[0] != QUOTE && c[0] != BACKSLASH
    case Short(c) => IsShort(c)
    case Unit(h) => IsHex4(h) && !HighSurrogate(Hex4(h)) && !LowSurrogate(Hex4(h))
    case Pair(h, l) => IsHex4(h) && IsHex4(l) && HighSurrogate(Hex4(h)) && LowSurrogate(Hex4(l))
  }

  predicate PiecesOk(ps: Pieces) { ps.End? || (PieceOk(ps.piece) && PiecesOk(ps.rest)) }

  /** Every JSON number is of this form; the walkers look no further into it. */
  predicate NumberOk(t: bytes) {
    && t != [] && (t[0] == MINUS || IsDigit(t[0]))
    && forall i :: 0 <= i < |t| ==> !EndsScalar(t[i]) && t[i] < 0x80
  }

  predicate JsonOk(v: Json) {
    match v
    case Number(t) => NumberOk(t)
    case Str(ps) => PiecesOk(ps)
    case Arr(items, gap) => AllSpace(gap) && ElemsOk(items)
    case Obj(members, gap) => AllSpace(gap) && MembersOk(members)
    case _ => true
  }

  predicate ElemOk(e: Elem) { AllSpace(e.lead) && AllSpace(e.trail) && JsonOk(e.value) }

  predicate ElemsOk(es: Elems) { es.NoElem? || (ElemOk(es.elem) && ElemsOk(es.rest)) }

  predicate MembersOk(ms: Members) {
    ms.NoMember? || (AllSpace(ms.member.lead) && PiecesOk(ms.member.key) && AllSpace(ms.member.gap)
                     && ElemOk(ms.member.elem) && MembersOk(ms.rest))
  }

  // ---- What a string means ----

  function PieceScalar(p: Piece): nat
    requires PieceOk(p)
  {
    match p
    case Raw(c) => Scalar(c)
    case Short(c) => ShortScalar(c)
    case Unit(h) => Hex4(h)
    case Pair(h, l) => Combine(Hex4(h), Hex4(l))
  }

  /** The characters of a string once its escapes are undone. */
  function Decoded(ps: Pieces): seq<nat>
    requires PiecesOk(ps)
  {
    if ps.End? then [] else [PieceScalar(ps.piece)] + Decoded(ps.rest)
  }

  function PieceWidth(p: Piece): nat
    requires PieceOk(p)
  {
    if p.Raw? then |p.utf8| else ScalarWidth(PieceScalar(p))
  }

  /** The length of the decoded string in UTF-8 bytes. */
  function DecodedWidth(ps: Pieces): nat
    requires PiecesOk(ps)
  {
    if ps.End? then 0 else PieceWidth(ps.piece) + DecodedWidth(ps.rest)
  }

  // ---- The printer ----

  function PrintPiece(p: Piece): bytes {
    match p
    case Raw(c) => c
    case Short(c) => [BACKSLASH, c]
    case Unit(h) => [BACKSLASH, LOWER_U] + h
    case Pair(h, l) => [BACKSLASH, LOWER_U] + h + [BACKSLASH, LOWER_U] + l
  }

  /** The rest of a string, up to and including its closing quote. */
  function PrintTail(ps: Pieces): bytes {
    if ps.End? then [QUOTE] else PrintPiece(ps.piece) + PrintTail(ps.rest)
  }

  function PrintString(ps: Pieces): bytes { [QUOTE] + PrintTail(ps) }

  function PrintJson(v: Json): bytes {
    match v
    case Null => NULL_WORD
    case True => TRUE_WORD
    case False => FALSE_WORD
    case Number(t) => t
    case Str(ps) => PrintString(ps)
    case Arr(items, gap) => [LBRACKET] + if items.NoElem? then gap + [RBRACKET] else PrintElems(items)
    case Obj(members, gap) => [LBRACE] + if members.NoMember? then gap + [RBRACE] else PrintMembers(members)
  }

  function PrintElem(e: Elem): bytes { e.lead + PrintJson(e.value) + e.trail }

  /** The elements of a non-empty array, and its closing bracket. */
  function PrintElems(es: Elems): bytes {
    if es.NoElem? then []
    else PrintElem(es.elem) + if es.rest.NoElem? then [RBRACKET] else [COMMA] + PrintElems(es.rest)
  }

  function PrintMember(m: Member): bytes {
    m.lead + PrintString(m.key) + m.gap + [COLON] + PrintElem(m.elem)
  }

  /** The members of a non-empty object, and its closing brace. */
  function PrintMembers(ms: Members): bytes {
    if ms.NoMember? then []
    else PrintMember(ms.member) + if ms.rest.NoMember? then [RBRACE] else [COMMA] + PrintMembers(ms.rest)
  }

  // ---- Text at a position ----

  /** The bytes of `text` stand at position `i` of `b`. */
  ghost predicate At(b: bytes, i: nat, text: bytes) { i + |text| <= |b| && b[i..i + |text|] == text }

  lemma AtConcat(b: bytes, i: nat, x: bytes, y: bytes)
    requires At(b, i, x + y)
    ensures At(b, i, x) && At(b, i + |x|, y)
  {
    var t := b[i..i + |x + y|];
    assert x == t[..|x|] && y == t[|x|..];
    assert b[i..i + |x|] == t[..|x|] && b[i + |x|..i + |x| + |y|] == t[|x|..];
  }

  lemma AtByte(b: bytes, i: nat, text: bytes, k: nat)
    requires At(b, i, text) && k < |text|
    ensures b[i + k] == text[k]
  {
    assert b[i..i + |text|][k] == text[k];
  }

  /** A well-formed character stands at `i` with the same width wherever it stands. */
  lemma Utf8CharAt(b: bytes, i: nat, c: bytes)
    requires c != [] && |c| == Utf8Width(c, 0) && At(b, i, c)
    ensures Utf8Width(b, i) == |c|
  {
    assert forall k :: 0 <= k < |c| ==> b[i..i + |c|][k] == c[k] == b[i + k];
  }

  /** Text of well-formed UTF-8 keeps what follows it well-formed from its own start. */
  lemma {:induction false} Utf8Before(b: bytes, i: nat, text: bytes, k: nat)
    requires At(b, i, text) && k <= |text| && Utf8From(text, k) && Utf8From(b, i + |text|)
    ensures Utf8From(b, i + k)
    decreases |text| - k
  {
    if k < |text| {
      var w := Utf8Width(text, k);
      assert forall j :: k <= j < |text| ==> b[i..i + |text|][j] == text[j] == b[i + j];
      Utf8Before(b, i, text, k + w);
      assert Utf8Width(b, i + k) == w;
    }
  }

  lemma {:induction false} Utf8Concat(x: bytes, y: bytes)
    requires Utf8From(x, 0) && Utf8From(y, 0)
    ensures Utf8From(x + y, 0)
  {
    assert (x + y)[|x|..|x| + |y|] == y && (x + y)[0..|x|] == x;
    assert Utf8From(x + y, |x| + |y|);
    Utf8Before(x + y, |x|, y, 0);
    Utf8Before(x + y, 0, x, 0);
  }

  lemma {:induction false} Utf8Ascii(t: bytes, k: nat)
    requires k <= |t| && forall i :: 0 <= i < |t| ==> t[i] < 0x80
    ensures Utf8From(t, k)
    decreases |t| - k
  {
    if k < |t| { Utf8Ascii(t, k + 1); }
  }

  lemma Utf8Char(c: bytes)
    requires c != [] && |c| == Utf8Width(c, 0)
    ensures Utf8From(c, 0)
  {
    assert Utf8From(c, |c|);
  }

  lemma {:induction false} PieceIsUtf8(p: Piece)
    requires PieceOk(p)
    ensures Utf8From(PrintPiece(p), 0) && PrintPiece(p) != []
  {
    if p.Raw? { Utf8Char(p.utf8); } else { Utf8Ascii(PrintPiece(p), 0); }
  }

  lemma {:induction false} TailIsUtf8(ps: Pieces)
    requires PiecesOk(ps)
    ensures Utf8From(PrintTail(ps), 0)
  {
    if ps.Then? {
      PieceIsUtf8(ps.piece);
      TailIsUtf8(ps.rest);
      Utf8Concat(PrintPiece(ps.piece), PrintTail(ps.rest));
    } else {
      Utf8Ascii(PrintTail(ps), 0);
    }
  }

  lemma {:induction false} StringIsUtf8(ps: Pieces)
    requires PiecesOk(ps)
    ensures Utf8From(PrintString(ps), 0)
  {
    TailIsUtf8(ps);
    Utf8Ascii([QUOTE], 0);
    Utf8Concat([QUOTE], PrintTail(ps));
  }

  lemma {:induction false} JsonIsUtf8(v: Json)
    requires JsonOk(v)
    ensures Utf8From(PrintJson(v), 0)
  {
    match v {
      case Str(ps) => StringIsUtf8(ps);
      case Arr(items, gap) =>
        Utf8Ascii([LBRACKET], 0);
        if items.NoElem? {
          Utf8Ascii(gap + [RBRACKET], 0);
          Utf8Concat([LBRACKET], gap + [RBRACKET]);
        } else {
          ElemsAreUtf8(items);
          Utf8Concat([LBRACKET], PrintElems(items));
        }
      case Obj(members, gap) =>
        Utf8Ascii([LBRACE], 0);
        if members.NoMember? {
          Utf8Ascii(gap + [RBRACE], 0);
          Utf8Concat([LBRACE], gap + [RBRACE]);
        } else {
          MembersAreUtf8(members);
          Utf8Concat([LBRACE], PrintMembers(members));
        }
      case _ => Utf8Ascii(PrintJson(v), 0);
    }
  }

  lemma {:induction false} ElemIsUtf8(e: Elem)
    requires ElemOk(e)
    ensures Utf8From(PrintElem(e), 0)
  {
    JsonIsUtf8(e.value);
    Utf8Ascii(e.lead, 0);
    Utf8Ascii(e.trail, 0);
    Utf8Concat(e.lead, PrintJson(e.value));
    Utf8Concat(e.lead + PrintJson(e.value), e.trail);
  }

  lemma {:induction false} ElemsAreUtf8(es: Elems)
    requires ElemsOk(es)
    ensures Utf8From(PrintElems(es), 0)
  {
    if es.Elems? {
      ElemIsUtf8(es.elem);
      if es.rest.NoElem? {
        Utf8Ascii([RBRACKET], 0);
        Utf8Concat(PrintElem(es.elem), [RBRACKET]);
      } else {
        ElemsAreUtf8(es.rest);
        Utf8Ascii([COMMA], 0);
        Utf8Concat([COMMA], PrintElems(es.rest));
        Utf8Concat(PrintElem(es.elem), [COMMA] + PrintElems(es.rest));
      }
    }
  }

  lemma {:induction false} MembersAreUtf8(ms: Members)
    requires MembersOk(ms)
    ensures Utf8From(PrintMembers(ms), 0)
  {
    if ms.Members? {
      MemberIsUtf8(ms.member);
      if ms.rest.NoMember? {
        Utf8Ascii([RBRACE], 0);
        Utf8Concat(PrintMember(ms.member), [RBRACE]);
      } else {
        MembersAreUtf8(ms.rest);
        Utf8Ascii([COMMA], 0);
        Utf8Concat([COMMA], PrintMembers(ms.rest));
        Utf8Concat(PrintMember(ms.member), [COMMA] + PrintMembers(ms.rest));
      }
    }
  }

  lemma {:induction false} MemberIsUtf8(m: Member)
    requires AllSpace(m.lead) && PiecesOk(m.key) && AllSpace(m.gap) && ElemOk(m.elem)
    ensures Utf8From(PrintMember(m), 0)
  {
    StringIsUtf8(m.key);
    ElemIsUtf8(m.elem);
    Utf8Ascii(m.lead, 0);
    Utf8Ascii(m.gap, 0);
    Utf8Ascii([COLON], 0);
    Utf8Concat(m.lead, PrintString(m.key));
    Utf8Concat(m.lead + PrintString(m.key), m.gap);
    Utf8Concat(m.lead + PrintString(m.key) + m.gap, [COLON]);
    Utf8Concat(m.lead + PrintString(m.key) + m.gap + [COLON], PrintElem(m.elem));
  }

  // ---- Where the parts of printed text stand ----

  /** What follows a value ends any scalar. */
  ghost predicate Delimited(b: bytes, i: nat) { i == |b| || (i < |b| && EndsScalar(b[i])) }

  /** Well-formed text stands at `i`, and so does everything after it. */
  ghost predicate Printed(b: bytes, i: nat, text: bytes) {
    At(b, i, text) && Utf8From(text, 0) && Utf8From(b, i) && Utf8From(b, i + |text|)
  }

  lemma PrintedConcat(b: bytes, i: nat, x: bytes, y: bytes)
    requires At(b, i, x + y) && Utf8From(x, 0) && Utf8From(y, 0) && Utf8From(b, i + |x + y|)
    ensures Printed(b, i, x) && Printed(b, i + |x|, y) && Printed(b, i, x + y)
  {
    AtConcat(b, i, x, y);
    Utf8Before(b, i + |x|, y, 0);
    Utf8Before(b, i, x, 0);
    Utf8Concat(x, y);
  }

  lemma {:induction false} StringAt(b: bytes, i: nat, ps: Pieces)
    requires PiecesOk(ps) && Printed(b, i, PrintString(ps))
    ensures i < |b| && b[i] == QUOTE && Printed(b, i + 1, PrintTail(ps))
    ensures |PrintString(ps)| == 1 + |PrintTail(ps)|
  {
    hide Utf8From;
    TailIsUtf8(ps);
    Utf8Ascii([QUOTE], 0);
    PrintedConcat(b, i, [QUOTE], PrintTail(ps));
    AtByte(b, i, [QUOTE], 0);
  }

  lemma {:induction false} ElemAt(b: bytes, i: nat, e: Elem)
    requires ElemOk(e) && Printed(b, i, PrintElem(e)) && Delimited(b, i + |PrintElem(e)|)
    ensures |PrintElem(e)| == |e.lead| + |PrintJson(e.value)| + |e.trail|
    ensures At(b, i, e.lead) && Printed(b, i + |e.lead|, PrintJson(e.value))
    ensures At(b, i + |e.lead| + |PrintJson(e.value)|, e.trail)
    ensures Delimited(b, i + |e.lead| + |PrintJson(e.value)|)
  {
    hide Utf8From;
    var text, j := PrintJson(e.value), i + |e.lead|;
    JsonIsUtf8(e.value);
    Utf8Ascii(e.lead, 0);
    Utf8Ascii(e.trail, 0);
    Utf8Concat(e.lead, text);
    PrintedConcat(b, i, e.lead + text, e.trail);
    PrintedConcat(b, i, e.lead, text);
    if e.trail != [] { AtByte(b, j + |text|, e.trail, 0); }
  }

  /** An item of a list, the mark after it, and the rest of the list. */
  lemma {:induction false} ItemAt(b: bytes, i: nat, text: bytes, mark: byte, rest: bytes)
    requires At(b, i, text + ([mark] + rest)) && Utf8From(text, 0) && Utf8From(rest, 0) && mark < 0x80
    requires Utf8From(b, i + |text + ([mark] + rest)|)
    ensures Printed(b, i, text) && i + |text| < |b| && b[i + |text|] == mark && Printed(b, i + |text| + 1, rest)
  {
    hide Utf8From;
    Utf8Ascii([mark], 0);
    Utf8Concat([mark], rest);
    PrintedConcat(b, i, text, [mark] + rest);
    PrintedConcat(b, i + |text|, [mark], rest);
    AtByte(b, i + |text|, [mark], 0);
  }

  lemma {:induction false} ElemsAt(b: bytes, i: nat, es: Elems)
    requires es.Elems? && ElemsOk(es) && Printed(b, i, PrintElems(es))
    ensures var j := i + |PrintElem(es.elem)|;
      && Printed(b, i, PrintElem(es.elem)) && Delimited(b, j) && j < |b|
      && (if es.rest.NoElem? then b[j] == RBRACKET && |PrintElems(es)| == |PrintElem(es.elem)| + 1
          else && b[j] == COMMA && Printed(b, j + 1, PrintElems(es.rest))
               && |PrintElems(es)| == |PrintElem(es.elem)| + 1 + |PrintElems(es.rest)|)
  {
    hide PrintElem;
    hide ElemOk;
    hide Utf8From;
    hide At;
    var text := PrintElem(es.elem);
    ElemIsUtf8(es.elem);
    if es.rest.NoElem? {
      Utf8Ascii([], 0);
      assert PrintElems(es) == text + ([RBRACKET] + []);
      ItemAt(b, i, text, RBRACKET, []);
    } else {
      ElemsAreUtf8(es.rest);
      assert PrintElems(es) == text + ([COMMA] + PrintElems(es.rest));
      ItemAt(b, i, text, COMMA, PrintElems(es.rest));
    }
  }

  lemma {:induction false} ArrayAt(b: bytes, i: nat, v: Json)
    requires v.Arr? && JsonOk(v) && Printed(b, i, PrintJson(v))
    ensures i < |b| && b[i] == LBRACKET
    ensures if v.items.NoElem? then
              && At(b, i + 1, v.gap) && i + 1 + |v.gap| < |b| && b[i + 1 + |v.gap|] == RBRACKET
              && |PrintJson(v)| == 2 + |v.gap|
            else Printed(b, i + 1, PrintElems(v.items)) && |PrintJson(v)| == 1 + |PrintElems(v.items)|
  {
    hide Utf8From;
    var body := if v.items.NoElem? then v.gap + [RBRACKET] else PrintElems(v.items);
    Utf8Ascii([LBRACKET], 0);
    ElemsAreUtf8(v.items);
    if v.items.NoElem? { Utf8Ascii(body, 0); }
    PrintedConcat(b, i, [LBRACKET], body);
    AtByte(b, i, [LBRACKET], 0);
    if v.items.NoElem? {
      AtConcat(b, i + 1, v.gap, [RBRACKET]);
      AtByte(b, i + 1 + |v.gap|, [RBRACKET], 0);
    }
  }

  lemma SpaceIsUtf8(s: bytes)
    requires AllSpace(s)
    ensures Utf8From(s, 0)
  {
    Utf8Ascii(s, 0);
  }

  lemma {:induction false} HeadAt(b: bytes, i: nat, lead: bytes, key: bytes, gap: bytes)
    requires Printed(b, i, lead + key + gap) && Utf8From(lead, 0) && Utf8From(key, 0) && Utf8From(gap, 0)
    ensures At(b, i, lead) && Printed(b, i + |lead|, key) && At(b, i + |lead| + |key|, gap)
  {
    hide Utf8From;
    Utf8Concat(lead, key);
    PrintedConcat(b, i, lead + key, gap);
    PrintedConcat(b, i, lead, key);
  }

  /** Where the key, the colon and the value of a member stand. */
  lemma {:induction false} MemberAt(b: bytes, i: nat, m: Member)
    requires AllSpace(m.lead) && PiecesOk(m.key) && AllSpace(m.gap) && ElemOk(m.elem)
    requires Printed(b, i, PrintMember(m))
    ensures var j := i + |m.lead|;
      var k := j + |PrintString(m.key)|;
      var c := k + |m.gap|;
      && At(b, i, m.lead) && Printed(b, j, PrintString(m.key)) && At(b, k, m.gap)
      && c < |b| && b[c] == COLON && Printed(b, c + 1, PrintElem(m.elem))
      && |PrintMember(m)| == |m.lead| + |PrintString(m.key)| + |m.gap| + 1 + |PrintElem(m.elem)|
  {
    hide PrintElem;
    hide PrintString;
    hide ElemOk;
    hide PiecesOk;
    hide AllSpace;
    hide Utf8From;
    var key, value := PrintString(m.key), PrintElem(m.elem);
    var head := m.lead + key + m.gap;
    StringIsUtf8(m.key);
    ElemIsUtf8(m.elem);
    SpaceIsUtf8(m.lead);
    SpaceIsUtf8(m.gap);
    Utf8Concat(m.lead, key);
    Utf8Concat(m.lead + key, m.gap);
    assert PrintMember(m) == head + ([COLON] + value);
    ItemAt(b, i, head, COLON, value);
    HeadAt(b, i, m.lead, key, m.gap);
  }

  lemma {:induction false} MembersAt(b: bytes, i: nat, ms: Members)
    requires ms.Members? && MembersOk(ms) && Printed(b, i, PrintMembers(ms))
    ensures var j := i + |PrintMember(ms.member)|;
      && Printed(b, i, PrintMember(ms.member)) && Delimited(b, j) && j < |b|
      && (if ms.rest.NoMember? then b[j] == RBRACE && |PrintMembers(ms)| == |PrintMember(ms.member)| + 1
          else && b[j] == COMMA && Printed(b, j + 1, PrintMembers(ms.rest))
               && |PrintMembers(ms)| == |PrintMember(ms.member)| + 1 + |PrintMembers(ms.rest)|)
  {
    hide PrintMember;
    hide ElemOk;
    hide Utf8From;
    hide At;
    var text := PrintMember(ms.member);
    MemberIsUtf8(ms.member);
    if ms.rest.NoMember? {
      Utf8Ascii([], 0);
      assert PrintMembers(ms) == text + ([RBRACE] + []);
      ItemAt(b, i, text, RBRACE, []);
    } else {
      MembersAreUtf8(ms.rest);
      assert PrintMembers(ms) == text + ([COMMA] + PrintMembers(ms.rest));
      ItemAt(b, i, text, COMMA, PrintMembers(ms.rest));
    }
  }

  lemma {:induction false} ObjectAt(b: bytes, i: nat, v: Json)
    requires v.Obj? && JsonOk(v) && Printed(b, i, PrintJson(v))
    ensures i < |b| && b[i] == LBRACE
    ensures if v.members.NoMember? then
              && At(b, i + 1, v.gap) && i + 1 + |v.gap| < |b| && b[i + 1 + |v.gap|] == RBRACE
              && |PrintJson(v)| == 2 + |v.gap|
            else Printed(b, i + 1, PrintMembers(v.members)) && |PrintJson(v)| == 1 + |PrintMembers(v.members)|
  {
    hide Utf8From;
    var body := if v.members.NoMember? then v.gap + [RBRACE] else PrintMembers(v.members);
    Utf8Ascii([LBRACE], 0);
    MembersAreUtf8(v.members);
    if v.members.NoMember? { Utf8Ascii(body, 0); }
    PrintedConcat(b, i, [LBRACE], body);
    AtByte(b, i, [LBRACE], 0);
    if v.members.NoMember? {
      AtConcat(b, i + 1, v.gap, [RBRACE]);
      AtByte(b, i + 1 + |v.gap|, [RBRACE], 0);
    }
  }

  /** A whole document is printed text at its own start. */
  lemma {:induction false} DocumentAt(e: Elem)
    requires ElemOk(e)
    ensures Printed(PrintElem(e), 0, PrintElem(e)) && Delimited(PrintElem(e), |PrintElem(e)|)
  {
    ElemIsUtf8(e);
    assert PrintElem(e)[0..|PrintElem(e)|] == PrintElem(e);
  }
}
