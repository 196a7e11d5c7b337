/** The handshake's bounded scanner: nesting, tokens and decoded string bytes, before any parsing. */
module JsonScan {
  import opened Wrappers
  import opened Bytes
  import opened JsonText

  const MAX_DEPTH: nat := 32
  const MAX_TOKENS: nat := 4096
  const MAX_STRING: nat := 4096
  const PLUS: byte := 43

  /** `u16::from_str_radix` on four bytes: hexadecimal digits, where a leading plus is also taken. */
  function Radix16(h: bytes): Option<nat>
    requires |h| == 4
  {
    if IsHex4(h) then Some(Hex4(h))
    else if h[0] == PLUS && IsHex(h[1]) && IsHex(h[2]) && IsHex(h[3]) then
      Some((HexValue(h[1]) * 16 + HexValue(h[2])) * 16 + HexValue(h[3]))
    else None
  }

  /** One character of a string: where the next one starts, and its decoded width. */
  function CharStep(b: bytes, i: nat): (r: Option<(nat, nat)>)
    requires i < |b|
    ensures r.Some? ==> i < r.value.0 <= |b|
  {
    if b[i] == BACKSLASH then
      if i + 1 >= |b| then None
      else if IsShort(b[i + 1]) then Some((i + 2, 1))
      else if b[i + 1] != LOWER_U || i + 6 > |b| then None
      else
        var v := Radix16(b[i + 2..i + 6]);
        if v.None? then None
        else if HighSurrogate(v.value) then
          if i + 8 > |b| || b[i + 6] != BACKSLASH || b[i + 7] != LOWER_U || i + 12 > |b| then None
          else
            var low := Radix16(b[i + 8..i + 12]);
            if low.None? || !LowSurrogate(low.value) then None
            else Some((i + 12, ScalarWidth(Combine(v.value, low.value))))
        else if LowSurrogate(v.value) then None
        else Some((i + 6, ScalarWidth(v.value)))
    else if b[i] >= 0x20 then
      if Utf8From(b, i) then Some((i + Utf8Width(b, i), Utf8Width(b, i))) else None
    else None
  }

  /** Where the string whose characters start at `i` ends, `decoded` bytes into it. */
  function ScanString(b: bytes, i: nat, decoded: nat): (r: Option<nat>)
    ensures r.Some? ==> i < r.value <= |b|
    decreases |b| - i
  {
    if i >= |b| then None
    else if b[i] == QUOTE then if decoded <= MAX_STRING then Some(i + 1) else None
    else
      var step := CharStep(b, i);
      if step.None? || decoded + step.value.1 > MAX_STRING then None
      else ScanString(b, step.value.0, decoded + step.value.1)
  }

  /** One character further into the string. */
  lemma StringOnward(b: bytes, i: nat, decoded: nat)
    requires i < |b| && b[i] != QUOTE && CharStep(b, i).Some?
    ensures var (next, width) := CharStep(b, i).value;
      ScanString(b, i, decoded) == if decoded + width > MAX_STRING then None else ScanString(b, next, decoded + width)
  {
    hide CharStep;
  }

  lemma StringStops(b: bytes, i: nat, decoded: nat)
    requires i >= |b| || b[i] == QUOTE || CharStep(b, i).None?
    ensures ScanString(b, i, decoded)
         == if i < |b| && b[i] == QUOTE && decoded <= MAX_STRING then Some(i + 1) else None
  {
    hide CharStep;
  }

  method ScanStringLoop(b: bytes, start: nat) returns (r: Option<nat>)
    ensures r == ScanString(b, start, 0)
  {
    hide Utf8From;
    hide Utf8Width;
    hide Radix16;
    hide ScalarWidth;
    hide Combine;
    hide ScanString;
    var i: nat, decoded: nat := start, 0;
    while i < |b|
      invariant ScanString(b, start, 0) == ScanString(b, i, decoded)
      decreases |b| - i
    {
      if b[i] == QUOTE || CharStep(b, i).None? { StringStops(b, i, decoded); }
      if b[i] == QUOTE { return if decoded <= MAX_STRING then Some(i + 1) else None; }
      var at := i;
      if b[i] == BACKSLASH {
        i := i + 1;
        if i >= |b| { return None; }
        var esc := b[i];
        if IsShort(esc) {
          decoded := decoded + 1;
        } else if esc == LOWER_U {
          if i + 5 > |b| { return None; }
          var value := Radix16(b[i + 1..i + 5]);
          if value.None? { return None; }
          i := i + 4;
          if HighSurrogate(value.value) {
            if i + 3 > |b| || b[i + 1] != BACKSLASH || b[i + 2] != LOWER_U { return None; }
            if i + 7 > |b| { return None; }
            var low := Radix16(b[i + 3..i + 7]);
            if low.None? || !LowSurrogate(low.value) { return None; }
            i := i + 6;
            decoded := decoded + ScalarWidth(Combine(value.value, low.value));
          } else if LowSurrogate(value.value) {
            return None;
          } else {
            decoded := decoded + ScalarWidth(value.value);
          }
        } else {
          return None;
        }
      } else if b[i] >= 0x20 {
        if !Utf8From(b, i) { return None; }
        var width := Utf8Width(b, i);
        decoded := decoded + width;
        i := i + width - 1;
      } else {
        return None;
      }
      StringOnward(b, at, decoded - CharStep(b, at).value.1);
      if decoded > MAX_STRING { return None; }
      i := i + 1;
    }
    StringStops(b, i, decoded);
    r := None;
  }

  /** Where a number or other scalar ends. */
  function ScalarEnd(b: bytes, i: nat): (j: nat)
    requires i <= |b|
    ensures i <= j <= |b| && (j < |b| ==> EndsScalar(b[j]))
    decreases |b| - i
  {
    if i == |b| || EndsScalar(b[i]) then i else ScalarEnd(b, i + 1)
  }

  predicate Word(b: bytes, i: nat, word: bytes) { i + |word| <= |b| && b[i..i + |word|] == word }

  /** One step of the scanner: the next position, the depth there, and the tokens it counts. */
  function ScanStep(b: bytes, i: nat, depth: nat): (r: Option<(nat, nat, nat)>)
    requires i < |b|
    ensures r.Some? ==> i < r.value.0 <= |b|
  {
    var c := b[i];
    if IsSpace(c) then Some((i + 1, depth, 0))
    else if c == LBRACE || c == LBRACKET then
      if depth + 1 > MAX_DEPTH then None else Some((i + 1, depth + 1, 1))
    else if c == RBRACE || c == RBRACKET then
      if depth == 0 then None else Some((i + 1, depth - 1, 1))
    else if c == COLON || c == COMMA then Some((i + 1, depth, 1))
    else if c == QUOTE then
      var end := ScanString(b, i + 1, 0);
      if end.None? then None else Some((end.value, depth, 1))
    else if c == MINUS || IsDigit(c) then Some((ScalarEnd(b, i + 1), depth, 1))
    else if Word(b, i, TRUE_WORD) then Some((i + 4, depth, 1))
    else if Word(b, i, FALSE_WORD) then Some((i + 5, depth, 1))
    else if Word(b, i, NULL_WORD) then Some((i + 4, depth, 1))
    else None
  }

  /** Whether the scanner accepts the rest of the text. */
  predicate ScanFrom(b: bytes, i: nat, depth: nat, tokens: nat)
    decreases |b| - i
  {
    if i >= |b| then depth == 0
    else
      var step := ScanStep(b, i, depth);
      && step.Some? && tokens + step.value.2 <= MAX_TOKENS
      && ScanFrom(b, step.value.0, step.value.1, tokens + step.value.2)
  }

  method ScanJson(b: bytes) returns (ok: bool)
    ensures ok == ScanFrom(b, 0, 0, 0)
  {
    hide ScanString;
    hide ScanFrom;
    var i, depth, tokens := 0, 0, 0;
    while i < |b|
      invariant i <= |b| && ScanFrom(b, 0, 0, 0) == ScanFrom(b, i, depth, tokens)
      decreases |b| - i
    {
      ScanOnward(b, i, depth, tokens);
      var c := b[i];
      if IsSpace(c) {
        i := i + 1;
      } else if c == LBRACE || c == LBRACKET {
        depth, tokens := depth + 1, tokens + 1;
        if depth > MAX_DEPTH { return false; }
        i := i + 1;
      } else if c == RBRACE || c == RBRACKET {
        if depth == 0 { return false; }
        depth, tokens := depth - 1, tokens + 1;
        i := i + 1;
      } else if c == COLON || c == COMMA {
        tokens := tokens + 1;
        i := i + 1;
      } else if c == QUOTE {
        tokens := tokens + 1;
        var end := ScanStringLoop(b, i + 1);
        if end.None? { return false; }
        i := end.value;
      } else if c == MINUS || IsDigit(c) {
        tokens := tokens + 1;
        i := i + 1;
        ghost var start := i;
        while i < |b| && !EndsScalar(b[i])
          invariant i <= |b| && ScalarEnd(b, start) == ScalarEnd(b, i)
        {
          i := i + 1;
        }
      } else if Word(b, i, TRUE_WORD) {
        tokens, i := tokens + 1, i + 4;
      } else if Word(b, i, FALSE_WORD) {
        tokens, i := tokens + 1, i + 5;
      } else if Word(b, i, NULL_WORD) {
        tokens, i := tokens + 1, i + 4;
      } else {
        return false;
      }
      if tokens > MAX_TOKENS { return false; }
    }
    ScanOnward(b, i, depth, tokens);
    ok := depth == 0;
  }

  lemma ScanOnward(b: bytes, i: nat, depth: nat, tokens: nat)
    ensures ScanFrom(b, i, depth, tokens)
         == if i >= |b| then depth == 0
            else
              var step := ScanStep(b, i, depth);
              && step.Some? && tokens + step.value.2 <= MAX_TOKENS
              && ScanFrom(b, step.value.0, step.value.1, tokens + step.value.2)
  {
  }

  // ---- Measures of a tree ----

  function Depth(v: Json): nat {
    match v
    case Arr(items, _) => 1 + DepthOfElems(items)
    case Obj(members, _) => 1 + DepthOfMembers(members)
    case _ => 0
  }

  function Max(a: nat, b: nat): nat { if a < b then b else a }

  function DepthOfElems(es: Elems): nat { if es.NoElem? then 0 else Max(Depth(es.elem.value), DepthOfElems(es.rest)) }

  function DepthOfMembers(ms: Members): nat {
    if ms.NoMember? then 0 else Max(Depth(ms.member.elem.value), DepthOfMembers(ms.rest))
  }

  /** Punctuation marks, strings, numbers and literals. */
  function Tokens(v: Json): nat {
    match v
    case Arr(items, _) => if items.NoElem? then 2 else 1 + TokensOfElems(items)
    case Obj(members, _) => if members.NoMember? then 2 else 1 + TokensOfMembers(members)
    case _ => 1
  }

  /** The elements, each with the comma or bracket after it. */
  function TokensOfElems(es: Elems): nat {
    if es.NoElem? then 0 else Tokens(es.elem.value) + 1 + TokensOfElems(es.rest)
  }

  function TokensOfMembers(ms: Members): nat {
    if ms.NoMember? then 0 else 2 + Tokens(ms.member.elem.value) + 1 + TokensOfMembers(ms.rest)
  }

  /** Every string and key, decoded, stays within the bound. */
  predicate StringsFit(v: Json)
    requires JsonOk(v)
  {
    match v
    case Str(ps) => DecodedWidth(ps) <= MAX_STRING
    case Arr(items, _) => StringsFitElems(items)
    case Obj(members, _) => StringsFitMembers(members)
    case _ => true
  }

  predicate StringsFitElems(es: Elems)
    requires ElemsOk(es)
  {
    es.NoElem? || (assert ElemOk(es.elem); StringsFit(es.elem.value) && StringsFitElems(es.rest))
  }

  predicate StringsFitMembers(ms: Members)
    requires MembersOk(ms)
  {
    ms.NoMember?
    || (assert ElemOk(ms.member.elem);
        DecodedWidth(ms.member.key) <= MAX_STRING && StringsFit(ms.member.elem.value) && StringsFitMembers(ms.rest))
  }

  // ---- The scanner on printed text ----

  /** Where the parts of an escaped character stand. */
  lemma {:induction false} UnitAt(b: bytes, i: nat, h: bytes)
    requires |h| == 4 && At(b, i, [BACKSLASH, LOWER_U] + h)
    ensures i + 6 <= |b| && b[i] == BACKSLASH && b[i + 1] == LOWER_U && b[i + 2..i + 6] == h
  {
    AtByte(b, i, [BACKSLASH, LOWER_U] + h, 0);
    AtByte(b, i, [BACKSLASH, LOWER_U] + h, 1);
    AtConcat(b, i, [BACKSLASH, LOWER_U], h);
  }

  lemma {:induction false} PairAt(b: bytes, i: nat, h: bytes, l: bytes)
    requires |h| == 4 && |l| == 4 && At(b, i, [BACKSLASH, LOWER_U] + h + [BACKSLASH, LOWER_U] + l)
    ensures i + 12 <= |b| && b[i] == BACKSLASH && b[i + 1] == LOWER_U && b[i + 2..i + 6] == h
    ensures b[i + 6] == BACKSLASH && b[i + 7] == LOWER_U && b[i + 8..i + 12] == l
  {
    var head := [BACKSLASH, LOWER_U] + h;
    assert head + [BACKSLASH, LOWER_U] + l == head + ([BACKSLASH, LOWER_U] + l);
    AtConcat(b, i, head, [BACKSLASH, LOWER_U] + l);
    UnitAt(b, i, h);
    UnitAt(b, i + 6, l);
  }

  lemma {:induction false} PieceStep(b: bytes, i: nat, p: Piece)
    requires PieceOk(p) && At(b, i, PrintPiece(p)) && Utf8From(b, i)
    ensures PrintPiece(p) != [] && i < |b| && b[i] != QUOTE
    ensures CharStep(b, i) == Some((i + |PrintPiece(p)|, PieceWidth(p)))
  {
    hide Hex4;
    hide HexValue;
    AtByte(b, i, PrintPiece(p), 0);
    match p {
      case Raw(c) => Utf8CharAt(b, i, c);
      case Short(c) => AtByte(b, i, PrintPiece(p), 1);
      case Unit(h) => UnitAt(b, i, h);
      case Pair(h, l) => PairAt(b, i, h, l);
    }
  }

  /** Scanning a printed string ends right after it, unless its decoded length is over the bound. */
  lemma {:induction false} ScanPrinted(b: bytes, i: nat, ps: Pieces, decoded: nat)
    requires PiecesOk(ps) && Printed(b, i, PrintTail(ps)) && decoded <= MAX_STRING
    ensures ScanString(b, i, decoded)
         == if decoded + DecodedWidth(ps) <= MAX_STRING then Some(i + |PrintTail(ps)|) else None
    decreases ps
  {
    hide Utf8From;
    hide CharStep;
    hide PieceOk;
    hide PrintPiece;
    hide PieceWidth;
    if ps.End? {
      AtByte(b, i, [QUOTE], 0);
    } else {
      var text := PrintPiece(ps.piece);
      PieceIsUtf8(ps.piece);
      TailIsUtf8(ps.rest);
      PrintedConcat(b, i, text, PrintTail(ps.rest));
      PieceStep(b, i, ps.piece);
      if decoded + PieceWidth(ps.piece) <= MAX_STRING {
        ScanPrinted(b, i + |text|, ps.rest, decoded + PieceWidth(ps.piece));
      }
    }
  }

  // ---- One token at a time ----

  lemma {:induction false} ScanSpaces(b: bytes, i: nat, s: bytes, depth: nat, tokens: nat)
    requires At(b, i, s) && AllSpace(s) && tokens <= MAX_TOKENS
    ensures ScanFrom(b, i, depth, tokens) == ScanFrom(b, i + |s|, depth, tokens)
    decreases |s|
  {
    hide ScanString;
    if s != [] {
      AtByte(b, i, s, 0);
      assert s == s[..1] + s[1..];
      AtConcat(b, i, s[..1], s[1..]);
      ScanSpaces(b, i + 1, s[1..], depth, tokens);
    }
  }

  lemma ScanMark(b: bytes, i: nat, depth: nat, tokens: nat)
    requires i < |b| && (b[i] == COMMA || b[i] == COLON)
    ensures ScanFrom(b, i, depth, tokens) == (tokens + 1 <= MAX_TOKENS && ScanFrom(b, i + 1, depth, tokens + 1))
  {
    hide ScanString;
  }

  lemma ScanOpen(b: bytes, i: nat, depth: nat, tokens: nat)
    requires i < |b| && (b[i] == LBRACE || b[i] == LBRACKET)
    ensures ScanFrom(b, i, depth, tokens)
         == (depth + 1 <= MAX_DEPTH && tokens + 1 <= MAX_TOKENS && ScanFrom(b, i + 1, depth + 1, tokens + 1))
  {
    hide ScanString;
  }

  lemma ScanClose(b: bytes, i: nat, depth: nat, tokens: nat)
    requires i < |b| && (b[i] == RBRACE || b[i] == RBRACKET) && depth > 0
    ensures ScanFrom(b, i, depth, tokens) == (tokens + 1 <= MAX_TOKENS && ScanFrom(b, i + 1, depth - 1, tokens + 1))
  {
    hide ScanString;
  }

  lemma {:induction false} ScanQuoted(b: bytes, i: nat, ps: Pieces, depth: nat, tokens: nat)
    requires PiecesOk(ps) && Printed(b, i, PrintString(ps))
    ensures ScanFrom(b, i, depth, tokens)
         == (DecodedWidth(ps) <= MAX_STRING && tokens + 1 <= MAX_TOKENS
             && ScanFrom(b, i + |PrintString(ps)|, depth, tokens + 1))
  {
    hide ScanString;
    hide DecodedWidth;
    hide PiecesOk;
    hide PrintString;
    hide PrintTail;
    hide Utf8From;
    hide At;
    hide ScanFrom;
    ScanOnward(b, i, depth, tokens);
    StringAt(b, i, ps);
    ScanPrinted(b, i + 1, ps, 0);
  }

  lemma {:induction false} ScalarEndIs(b: bytes, i: nat, t: bytes, k: nat)
    requires At(b, i, t) && k <= |t| && Delimited(b, i + |t|)
    requires forall j :: 0 <= j < |t| ==> !EndsScalar(t[j])
    ensures ScalarEnd(b, i + k) == i + |t|
    decreases |t| - k
  {
    if k < |t| {
      AtByte(b, i, t, k);
      ScalarEndIs(b, i, t, k + 1);
    }
  }

  /** How the text of a scalar that is no string starts, and where it ends. */
  lemma {:induction false} ScalarAt(b: bytes, i: nat, v: Json)
    requires JsonOk(v) && !v.Str? && !v.Arr? && !v.Obj?
    requires At(b, i, PrintJson(v)) && Delimited(b, i + |PrintJson(v)|)
    ensures i < |b| && |PrintJson(v)| > 0
    ensures match v
      case Null => b[i] == 110 && Word(b, i, NULL_WORD) && |PrintJson(v)| == 4
      case True => b[i] == 116 && Word(b, i, TRUE_WORD) && |PrintJson(v)| == 4
      case False => b[i] == 102 && Word(b, i, FALSE_WORD) && |PrintJson(v)| == 5
      case Number(_) =>
        && (b[i] == MINUS || IsDigit(b[i])) && ScalarEnd(b, i) == i + |PrintJson(v)|
        && ScalarEnd(b, i + 1) == i + |PrintJson(v)|
      case _ => true
  {
    AtByte(b, i, PrintJson(v), 0);
    if v.Number? {
      ScalarEndIs(b, i, v.text, 0);
      ScalarEndIs(b, i, v.text, 1);
    }
  }

  lemma WordsApart(b: bytes, i: nat)
    ensures Word(b, i, TRUE_WORD) ==> i < |b| && b[i] == 116
    ensures Word(b, i, FALSE_WORD) ==> i < |b| && b[i] == 102
    ensures Word(b, i, NULL_WORD) ==> i < |b| && b[i] == 110
  {
    if Word(b, i, TRUE_WORD) { WordByte(b, i, TRUE_WORD); }
    if Word(b, i, FALSE_WORD) { WordByte(b, i, FALSE_WORD); }
    if Word(b, i, NULL_WORD) { WordByte(b, i, NULL_WORD); }
  }

  lemma WordByte(b: bytes, i: nat, word: bytes)
    requires word != [] && Word(b, i, word)
    ensures b[i] == word[0]
  {
    assert b[i..i + |word|][0] == word[0];
  }

  lemma {:induction false} ScalarStep(b: bytes, i: nat, v: Json, depth: nat)
    requires JsonOk(v) && !v.Str? && !v.Arr? && !v.Obj?
    requires At(b, i, PrintJson(v)) && Delimited(b, i + |PrintJson(v)|)
    ensures i < |b| && ScanStep(b, i, depth) == Some((i + |PrintJson(v)|, depth, 1))
  {
    hide ScanString;
    hide ScalarEnd;
    hide PrintJson;
    hide JsonOk;
    hide At;
    hide Word;
    ScalarAt(b, i, v);
    WordsApart(b, i);
  }

  lemma {:induction false} ScanScalar(b: bytes, i: nat, v: Json, depth: nat, tokens: nat)
    requires JsonOk(v) && !v.Str? && !v.Arr? && !v.Obj?
    requires At(b, i, PrintJson(v)) && Delimited(b, i + |PrintJson(v)|)
    ensures ScanFrom(b, i, depth, tokens)
         == (tokens + 1 <= MAX_TOKENS && ScanFrom(b, i + |PrintJson(v)|, depth, tokens + 1))
  {
    hide ScanStep;
    ScalarStep(b, i, v, depth);
  }

  // ---- The scanner on printed trees ----

  /** The value fits what is left of the bounds. */
  ghost predicate Room(v: Json, depth: nat, tokens: nat)
    requires JsonOk(v)
  {
    depth + Depth(v) <= MAX_DEPTH && tokens + Tokens(v) <= MAX_TOKENS && StringsFit(v)
  }

  lemma {:induction false} ScanValue(b: bytes, i: nat, v: Json, depth: nat, tokens: nat)
    requires JsonOk(v) && Printed(b, i, PrintJson(v)) && Delimited(b, i + |PrintJson(v)|)
    requires tokens <= MAX_TOKENS && depth <= MAX_DEPTH
    ensures ScanFrom(b, i, depth, tokens)
         == (Room(v, depth, tokens) && ScanFrom(b, i + |PrintJson(v)|, depth, tokens + Tokens(v)))
    decreases v, 1
  {
    hide ScanFrom;
    hide Utf8From;
    match v {
      case Str(ps) => ScanQuoted(b, i, ps, depth, tokens);
      case Arr(items, gap) => ScanArray(b, i, v, depth, tokens);
      case Obj(members, gap) => ScanObject(b, i, v, depth, tokens);
      case _ => ScanScalar(b, i, v, depth, tokens);
    }
  }

  lemma {:induction false} ScanArray(b: bytes, i: nat, v: Json, depth: nat, tokens: nat)
    requires v.Arr? && JsonOk(v) && Printed(b, i, PrintJson(v))
    requires tokens <= MAX_TOKENS && depth <= MAX_DEPTH
    ensures ScanFrom(b, i, depth, tokens)
         == (Room(v, depth, tokens) && ScanFrom(b, i + |PrintJson(v)|, depth, tokens + Tokens(v)))
    decreases v, 0
  {
    hide ScanFrom;
    hide Utf8From;
    hide PrintJson;
    ArrayAt(b, i, v);
    assert StringsFit(v) == StringsFitElems(v.items) && Depth(v) == 1 + DepthOfElems(v.items);
    ScanOpen(b, i, depth, tokens);
    if depth + 1 <= MAX_DEPTH && tokens + 1 <= MAX_TOKENS {
      if v.items.NoElem? {
        ScanSpaces(b, i + 1, v.gap, depth + 1, tokens + 1);
        ScanClose(b, i + 1 + |v.gap|, depth + 1, tokens + 1);
      } else {
        ScanElems(b, i + 1, v.items, depth + 1, tokens + 1);
      }
    }
  }

  lemma {:induction false} ScanElem(b: bytes, i: nat, e: Elem, depth: nat, tokens: nat)
    requires ElemOk(e) && Printed(b, i, PrintElem(e)) && Delimited(b, i + |PrintElem(e)|)
    requires tokens <= MAX_TOKENS && depth <= MAX_DEPTH
    ensures ScanFrom(b, i, depth, tokens)
         == (Room(e.value, depth, tokens) && ScanFrom(b, i + |PrintElem(e)|, depth, tokens + Tokens(e.value)))
    decreases e, 2
  {
    hide ScanFrom;
    hide Utf8From;
    hide PrintElem;
    var j := i + |e.lead|;
    ElemAt(b, i, e);
    ScanSpaces(b, i, e.lead, depth, tokens);
    ScanValue(b, j, e.value, depth, tokens);
    if Room(e.value, depth, tokens) {
      ScanSpaces(b, j + |PrintJson(e.value)|, e.trail, depth, tokens + Tokens(e.value));
    }
  }

  lemma {:induction false} ScanElems(b: bytes, i: nat, es: Elems, depth: nat, tokens: nat)
    requires es.Elems? && ElemsOk(es) && Printed(b, i, PrintElems(es))
    requires tokens <= MAX_TOKENS && 0 < depth <= MAX_DEPTH
    ensures ScanFrom(b, i, depth, tokens)
         == (depth + DepthOfElems(es) <= MAX_DEPTH && tokens + TokensOfElems(es) <= MAX_TOKENS && StringsFitElems(es)
             && ScanFrom(b, i + |PrintElems(es)|, depth - 1, tokens + TokensOfElems(es)))
    decreases es, 3
  {
    hide ScanFrom;
    hide Utf8From;
    hide PrintElem;
    hide PrintElems;
    var j, t := i + |PrintElem(es.elem)|, tokens + Tokens(es.elem.value);
    ElemsAt(b, i, es);
    ScanElem(b, i, es.elem, depth, tokens);
    if Room(es.elem.value, depth, tokens) {
      if es.rest.NoElem? {
        ScanClose(b, j, depth, t);
      } else {
        ScanMark(b, j, depth, t);
        if t + 1 <= MAX_TOKENS { ScanElems(b, j + 1, es.rest, depth, t + 1); }
      }
    }
  }

  lemma {:induction false} ScanObject(b: bytes, i: nat, v: Json, depth: nat, tokens: nat)
    requires v.Obj? && JsonOk(v) && Printed(b, i, PrintJson(v))
    requires tokens <= MAX_TOKENS && depth <= MAX_DEPTH
    ensures ScanFrom(b, i, depth, tokens)
         == (Room(v, depth, tokens) && ScanFrom(b, i + |PrintJson(v)|, depth, tokens + Tokens(v)))
    decreases v, 0
  {
    hide ScanFrom;
    hide Utf8From;
    hide PrintJson;
    ObjectAt(b, i, v);
    assert StringsFit(v) == StringsFitMembers(v.members) && Depth(v) == 1 + DepthOfMembers(v.members);
    ScanOpen(b, i, depth, tokens);
    if depth + 1 <= MAX_DEPTH && tokens + 1 <= MAX_TOKENS {
      if v.members.NoMember? {
        ScanSpaces(b, i + 1, v.gap, depth + 1, tokens + 1);
        ScanClose(b, i + 1 + |v.gap|, depth + 1, tokens + 1);
      } else {
        ScanMembers(b, i + 1, v.members, depth + 1, tokens + 1);
      }
    }
  }

  /** The key, the colon and the value of one member. */
  lemma {:induction false} ScanMember(b: bytes, i: nat, m: Member, depth: nat, tokens: nat)
    requires AllSpace(m.lead) && PiecesOk(m.key) && AllSpace(m.gap) && ElemOk(m.elem)
    requires Printed(b, i, PrintMember(m)) && Delimited(b, i + |PrintMember(m)|)
    requires tokens <= MAX_TOKENS && depth <= MAX_DEPTH
    ensures ScanFrom(b, i, depth, tokens)
         == (DecodedWidth(m.key) <= MAX_STRING && tokens + 2 <= MAX_TOKENS && Room(m.elem.value, depth, tokens + 2)
             && ScanFrom(b, i + |PrintMember(m)|, depth, tokens + 2 + Tokens(m.elem.value)))
    decreases m, 3
  {
    hide ScanFrom;
    hide Utf8From;
    hide PrintMember;
    hide PrintElem;
    hide PrintString;
    var j := i + |m.lead|;
    var k := j + |PrintString(m.key)|;
    MemberAt(b, i, m);
    ScanSpaces(b, i, m.lead, depth, tokens);
    ScanQuoted(b, j, m.key, depth, tokens);
    if DecodedWidth(m.key) <= MAX_STRING && tokens + 1 <= MAX_TOKENS {
      ScanSpaces(b, k, m.gap, depth, tokens + 1);
      ScanMark(b, k + |m.gap|, depth, tokens + 1);
      if tokens + 2 <= MAX_TOKENS { ScanElem(b, k + |m.gap| + 1, m.elem, depth, tokens + 2); }
    }
  }

  lemma {:induction false} ScanMembers(b: bytes, i: nat, ms: Members, depth: nat, tokens: nat)
    requires ms.Members? && MembersOk(ms) && Printed(b, i, PrintMembers(ms))
    requires tokens <= MAX_TOKENS && 0 < depth <= MAX_DEPTH
    ensures ScanFrom(b, i, depth, tokens)
         == (depth + DepthOfMembers(ms) <= MAX_DEPTH && tokens + TokensOfMembers(ms) <= MAX_TOKENS
             && StringsFitMembers(ms)
             && ScanFrom(b, i + |PrintMembers(ms)|, depth - 1, tokens + TokensOfMembers(ms)))
    decreases ms, 4
  {
    hide ScanFrom;
    hide Utf8From;
    hide PrintMember;
    hide PrintMembers;
    var m := ms.member;
    var j, t := i + |PrintMember(m)|, tokens + 2 + Tokens(m.elem.value);
    MembersAt(b, i, ms);
    ScanMember(b, i, m, depth, tokens);
    if DecodedWidth(m.key) <= MAX_STRING && tokens + 2 <= MAX_TOKENS && Room(m.elem.value, depth, tokens + 2) {
      if ms.rest.NoMember? {
        ScanClose(b, j, depth, t);
      } else {
        ScanMark(b, j, depth, t);
        if t + 1 <= MAX_TOKENS { ScanMembers(b, j + 1, ms.rest, depth, t + 1); }
      }
    }
  }

  /** The scanner accepts a printed document exactly when it keeps to the three bounds. */
  lemma {:induction false} ScannerAcceptsWithinBounds(e: Elem)
    requires ElemOk(e)
    ensures ScanFrom(PrintElem(e), 0, 0, 0)
        <==> Depth(e.value) <= MAX_DEPTH && Tokens(e.value) <= MAX_TOKENS && StringsFit(e.value)
  {
    hide PrintElem;
    hide ScanFrom;
    hide StringsFit;
    hide Depth;
    hide Tokens;
    ScanOnward(PrintElem(e), |PrintElem(e)|, 0, Tokens(e.value));
    DocumentAt(e);
    ScanElem(PrintElem(e), 0, e, 0, 0);
  }
}
