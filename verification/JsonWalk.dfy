/** The handshake's duplicate-key walker: a cursor over the bytes that refuses repeated protected keys. */
module JsonWalk {
  import opened Wrappers
  import opened Bytes
  import opened JsonText
  import opened JsonScan

  /** Decoded characters, as scalar values. */
  type Text = seq<nat>

  datatype PathSegment = Key(key: Text) | ArrayElement

  type Path = seq<PathSegment>

  datatype Stage = Root | Template | Mapping

  function Chars(s: string): (t: Text)
    ensures |t| == |s|
  {
    seq(|s|, i requires 0 <= i < |s| => s[i] as nat)
  }

  const CLUSTER_UUID: Text := Chars("cluster_uuid")
  const COMPONENT_TEMPLATES: Text := Chars("component_templates")
  const COMPONENT_TEMPLATE: Text := Chars("component_template")
  const NAME: Text := Chars("name")
  const META: Text := Chars("_meta")
  const ACCEPTED_VERSIONS: Text := Chars("accepted_schema_versions")

  /** The path of a listed component template, or of the object `suffix` names inside it. */
  predicate TemplatePath(path: Path, suffix: seq<Text>) {
    && |path| == |suffix| + 2
    && path[0] == Key(COMPONENT_TEMPLATES)
    && path[1] == ArrayElement
    && forall k :: 0 <= k < |suffix| ==> path[k + 2] == Key(suffix[k])
  }

  /** The keys that decide the handshake, at the paths where they do. */
  predicate Protected(stage: Stage, path: Path, key: Text) {
    match stage
    case Root => path == [] && key == CLUSTER_UUID
    case Template =>
      || (path == [] && key == COMPONENT_TEMPLATES)
      || (TemplatePath(path, []) && (key == NAME || key == COMPONENT_TEMPLATE))
      || (TemplatePath(path, [COMPONENT_TEMPLATE]) && key == META)
      || (TemplatePath(path, [COMPONENT_TEMPLATE, META]) && key == ACCEPTED_VERSIONS)
    case Mapping => false
  }

  // ---- Strings ----

  function Ws(b: bytes, i: nat): (j: nat)
    requires i <= |b|
    ensures i <= j <= |b|
    decreases |b| - i
  {
    if i < |b| && IsSpace(b[i]) then Ws(b, i + 1) else i
  }

  /** One character of a string as section 7 of RFC 8259 reads it: where the next starts, and its scalar value. */
  function CharDecode(b: bytes, i: nat): (r: Option<(nat, nat)>)
    requires i < |b|
    ensures r.Some? ==> i < r.value.0
  {
    if b[i] == BACKSLASH then
      if i + 1 >= |b| then None
      else if IsShort(b[i + 1]) then Some((i + 2, ShortScalar(b[i + 1])))
      else if b[i + 1] != LOWER_U || i + 6 > |b| || !IsHex4(b[i + 2..i + 6]) then None
      else
        var v := Hex4(b[i + 2..i + 6]);
        if HighSurrogate(v) then
          if i + 12 > |b| || b[i + 6] != BACKSLASH || b[i + 7] != LOWER_U || !IsHex4(b[i + 8..i + 12])
             || !LowSurrogate(Hex4(b[i + 8..i + 12])) then None
          else Some((i + 12, Combine(v, Hex4(b[i + 8..i + 12]))))
        else if LowSurrogate(v) then None
        else Some((i + 6, v))
    else if b[i] >= 0x20 && Utf8Width(b, i) > 0 then
      Some((i + Utf8Width(b, i), Scalar(b[i..i + Utf8Width(b, i)])))
    else None
  }

  /** The characters from `i` up to the quote that ends at `end`. */
  function Decode(b: bytes, i: nat, end: nat): Option<Text>
    requires end <= |b|
    decreases end - i
  {
    if i >= end then None
    else if b[i] == QUOTE then if i + 1 == end then Some([]) else None
    else
      var step := CharDecode(b, i);
      if step.None? || step.value.0 > end then None
      else
        var rest := Decode(b, step.value.0, end);
        if rest.None? then None else Some([step.value.1] + rest.value)
  }

  /** A string after white space: where it ends, and what it says. */
  function WalkString(b: bytes, i: nat): (r: Option<(nat, Text)>)
    requires i <= |b|
    ensures r.Some? ==> i < r.value.0 <= |b|
  {
    var j := Ws(b, i);
    if j == |b| || b[j] != QUOTE then None
    else
      var end := ScanString(b, j + 1, 0);
      if end.None? then None
      else
        var text := Decode(b, j + 1, end.value);
        if text.None? then None else Some((end.value, text.value))
  }

  // ---- The walk ----

  /** Where the value after white space ends, unless the walk refuses it. */
  function WalkValue(b: bytes, i: nat, path: Path, stage: Stage): (r: Option<nat>)
    requires i <= |b|
    ensures r.Some? ==> i < r.value <= |b|
    decreases |b| - i, 2
  {
    WalkAt(b, Ws(b, i), path, stage)
  }

  function WalkAt(b: bytes, i: nat, path: Path, stage: Stage): (r: Option<nat>)
    requires i <= |b|
    ensures r.Some? ==> i < r.value <= |b|
    decreases |b| - i, 1
  {
    if i == |b| then None
    else if b[i] == LBRACE then WalkObject(b, i, path, stage)
    else if b[i] == LBRACKET then WalkArray(b, i, path, stage)
    else if b[i] == QUOTE then
      var text := WalkString(b, i);
      if text.None? then None else Some(text.value.0)
    else if b[i] == MINUS || IsDigit(b[i]) then Some(ScalarEnd(b, i))
    else if Word(b, i, TRUE_WORD) then Some(i + 4)
    else if Word(b, i, FALSE_WORD) then Some(i + 5)
    else if Word(b, i, NULL_WORD) then Some(i + 4)
    else None
  }

  function WalkObject(b: bytes, i: nat, path: Path, stage: Stage): (r: Option<nat>)
    requires i < |b|
    ensures r.Some? ==> i < r.value <= |b|
    decreases |b| - i, 0
  {
    var j := Ws(b, i + 1);
    if j < |b| && b[j] == RBRACE then Some(j + 1) else WalkMembers(b, j, path, stage, {})
  }

  /** The members from `i` on, with the protected keys already seen. */
  function WalkMembers(b: bytes, i: nat, path: Path, stage: Stage, seen: set<Text>): (r: Option<nat>)
    requires i <= |b|
    ensures r.Some? ==> i < r.value <= |b|
    decreases |b| - i, 3
  {
    var text := WalkString(b, i);
    if text.None? then None
    else
      var key := text.value.1;
      var j := Ws(b, text.value.0);
      if Protected(stage, path, key) && key in seen then None
      else if j == |b| || b[j] != COLON then None
      else
        var value := WalkValue(b, j + 1, path + [Key(key)], stage);
        if value.None? then None
        else
          var k := Ws(b, value.value);
          if k == |b| then None
          else if b[k] == COMMA then
            WalkMembers(b, Ws(b, k + 1), path, stage, if Protected(stage, path, key) then seen + {key} else seen)
          else if b[k] == RBRACE then Some(k + 1)
          else None
  }

  function WalkArray(b: bytes, i: nat, path: Path, stage: Stage): (r: Option<nat>)
    requires i < |b|
    ensures r.Some? ==> i < r.value <= |b|
    decreases |b| - i, 0
  {
    var j := Ws(b, i + 1);
    if j < |b| && b[j] == RBRACKET then Some(j + 1) else WalkElements(b, j, path + [ArrayElement], stage)
  }

  function WalkElements(b: bytes, i: nat, path: Path, stage: Stage): (r: Option<nat>)
    requires i <= |b|
    ensures r.Some? ==> i < r.value <= |b|
    decreases |b| - i, 3
  {
    var value := WalkValue(b, i, path, stage);
    if value.None? then None
    else
      var k := Ws(b, value.value);
      if k == |b| then None
      else if b[k] == COMMA then WalkElements(b, Ws(b, k + 1), path, stage)
      else if b[k] == RBRACKET then Some(k + 1)
      else None
  }

  /** The walk takes the whole text. */
  predicate WalksThrough(b: bytes, stage: Stage) {
    var r := WalkValue(b, 0, [], stage);
    r.Some? && Ws(b, r.value) == |b|
  }

  lemma ObjectOnward(b: bytes, i: nat, path: Path, stage: Stage)
    requires i < |b|
    ensures WalkObject(b, i, path, stage) ==
      var j := Ws(b, i + 1);
      if j < |b| && b[j] == RBRACE then Some(j + 1) else WalkMembers(b, j, path, stage, {})
  {
  }

  lemma MembersOnward(b: bytes, i: nat, path: Path, stage: Stage, seen: set<Text>)
    requires i <= |b|
    ensures WalkMembers(b, i, path, stage, seen) ==
      var text := WalkString(b, i);
      if text.None? then None
      else
        var key := text.value.1;
        var j := Ws(b, text.value.0);
        if Protected(stage, path, key) && key in seen then None
        else if j == |b| || b[j] != COLON then None
        else
          var value := WalkValue(b, j + 1, path + [Key(key)], stage);
          if value.None? then None
          else
            var k := Ws(b, value.value);
            if k == |b| then None
            else if b[k] == COMMA then
              WalkMembers(b, Ws(b, k + 1), path, stage, if Protected(stage, path, key) then seen + {key} else seen)
            else if b[k] == RBRACE then Some(k + 1)
            else None
  {
  }

  /** The walker: its cursor moves past what it accepts, and stays anywhere once it has refused. */
  class DuplicateParser {
    const text: bytes
    const stage: Stage
    var cursor: nat

    constructor (text: bytes, stage: Stage)
      ensures this.text == text && this.stage == stage && cursor == 0
    {
      this.text, this.stage, cursor := text, stage, 0;
    }

    /** The cursor after a step, as the specification has it. */
    ghost predicate Reached(ok: bool, end: Option<nat>)
      reads this
    {
      cursor <= |text| && ok == end.Some? && (ok ==> cursor == end.value)
    }

    method SkipWs()
      requires cursor <= |text|
      modifies this
      ensures cursor == Ws(text, old(cursor))
    {
      while cursor < |text| && IsSpace(text[cursor])
        invariant cursor <= |text| && Ws(text, old(cursor)) == Ws(text, cursor)
      {
        cursor := cursor + 1;
      }
    }

    method Value(path: Path) returns (ok: bool)
      requires cursor <= |text|
      modifies this
      ensures Reached(ok, WalkValue(text, old(cursor), path, stage))
      decreases |text| - cursor, 2
    {
      SkipWs();
      if cursor == |text| { return false; }
      var c := text[cursor];
      if c == LBRACE {
        ok := Object(path);
      } else if c == LBRACKET {
        ok := Array(path);
      } else if c == QUOTE {
        var s := String();
        ok := s.Some?;
      } else if c == MINUS || IsDigit(c) {
        Scalar();
        ok := true;
      } else if c == 116 {
        ok := Take(TRUE_WORD);
      } else if c == 102 {
        ok := Take(FALSE_WORD);
      } else if c == 110 {
        ok := Take(NULL_WORD);
      } else {
        ok := false;
      }
    }

    method Object(path: Path) returns (ok: bool)
      requires cursor < |text|
      modifies this
      ensures Reached(ok, WalkObject(text, old(cursor), path, stage))
      decreases |text| - cursor, 0
    {
      hide Protected;
      hide Ws;
      hide WalkValue;
      hide WalkString;
      hide WalkMembers;
      hide IsSpace;
      hide WalkObject;
      ObjectOnward(text, cursor, path, stage);
      ghost var whole := WalkObject(text, cursor, path, stage);
      cursor := cursor + 1;
      SkipWs();
      var seen: set<Text> := {};
      if cursor < |text| && text[cursor] == RBRACE {
        cursor := cursor + 1;
        return true;
      }
      while true
        invariant old(cursor) < cursor <= |text|
        invariant whole == WalkMembers(text, cursor, path, stage, seen)
        decreases |text| - cursor
      {
        MembersOnward(text, cursor, path, stage, seen);
        var key := String();
        if key.None? { return false; }
        var guarded := Protected(stage, path, key.value);
        if guarded && key.value in seen { return false; }
        if guarded { seen := seen + {key.value}; }
        SkipWs();
        if cursor == |text| || text[cursor] != COLON { return false; }
        cursor := cursor + 1;
        var entered := Value(path + [Key(key.value)]);
        if !entered { return false; }
        SkipWs();
        if cursor == |text| { return false; }
        if text[cursor] == COMMA {
          cursor := cursor + 1;
          SkipWs();
        } else if text[cursor] == RBRACE {
          cursor := cursor + 1;
          return true;
        } else {
          return false;
        }
      }
    }

    method Array(path: Path) returns (ok: bool)
      requires cursor < |text|
      modifies this
      ensures Reached(ok, WalkArray(text, old(cursor), path, stage))
      decreases |text| - cursor, 0
    {
      hide Ws;
      hide WalkValue;
      ghost var whole := WalkArray(text, cursor, path, stage);
      cursor := cursor + 1;
      SkipWs();
      if cursor < |text| && text[cursor] == RBRACKET {
        cursor := cursor + 1;
        return true;
      }
      var child := path + [ArrayElement];
      while true
        invariant old(cursor) < cursor <= |text|
        invariant whole == WalkElements(text, cursor, child, stage)
        decreases |text| - cursor
      {
        var entered := Value(child);
        if !entered { return false; }
        SkipWs();
        if cursor == |text| { return false; }
        if text[cursor] == COMMA {
          cursor := cursor + 1;
          SkipWs();
        } else if text[cursor] == RBRACKET {
          cursor := cursor + 1;
          return true;
        } else {
          return false;
        }
      }
    }

    method String() returns (r: Option<Text>)
      requires cursor <= |text|
      modifies this
      ensures var s := WalkString(text, old(cursor));
        && Reached(r.Some?, if s.None? then None else Some(s.value.0))
        && (r.Some? ==> r.value == s.value.1)
    {
      SkipWs();
      var start := cursor;
      if cursor == |text| || text[cursor] != QUOTE { return None; }
      var end := ScanStringLoop(text, cursor + 1);
      if end.None? { return None; }
      cursor := end.value;
      r := Decode(text, start + 1, cursor);
    }

    method Scalar()
      requires cursor <= |text|
      modifies this
      ensures cursor == ScalarEnd(text, old(cursor))
    {
      while cursor < |text| && !EndsScalar(text[cursor])
        invariant cursor <= |text| && ScalarEnd(text, old(cursor)) == ScalarEnd(text, cursor)
      {
        cursor := cursor + 1;
      }
    }

    method Take(word: bytes) returns (ok: bool)
      requires cursor <= |text|
      modifies this
      ensures ok == Word(text, old(cursor), word)
      ensures cursor == old(cursor) + if ok then |word| else 0
    {
      ok := Word(text, cursor, word);
      if ok { cursor := cursor + |word|; }
    }
  }

  /** The bounded scan, the deserializer (`parses`) and the walk of the whole text. */
  method CheckedJsonStage(body: bytes, stage: Stage, parses: bool) returns (ok: bool)
    ensures ok == (ScanFrom(body, 0, 0, 0) && parses && WalksThrough(body, stage))
  {
    var bounded := ScanJson(body);
    if !bounded || !parses { return false; }
    var parser := new DuplicateParser(body, stage);
    ok := parser.Value([]);
    if !ok { return false; }
    parser.SkipWs();
    ok := parser.cursor == |body|;
  }

  // ---- Repeated protected keys of a tree ----

  /** The decoded keys of an object, in order. */
  function Keys(ms: Members): seq<Text>
    requires MembersOk(ms)
  {
    if ms.NoMember? then [] else [Decoded(ms.member.key)] + Keys(ms.rest)
  }

  ghost predicate Repeated(keys: seq<Text>, stage: Stage, path: Path) {
    exists i, j :: 0 <= i < j < |keys| && keys[i] == keys[j] && Protected(stage, path, keys[i])
  }

  /** Somewhere in the tree an object has a protected key twice. */
  ghost predicate ProtectedRepeat(v: Json, stage: Stage, path: Path)
    requires JsonOk(v)
  {
    match v
    case Arr(items, _) => RepeatInElems(items, stage, path + [ArrayElement])
    case Obj(members, _) => Repeated(Keys(members), stage, path) || RepeatInMembers(members, stage, path)
    case _ => false
  }

  ghost predicate RepeatInElems(es: Elems, stage: Stage, path: Path)
    requires ElemsOk(es)
  {
    && es.Elems?
    && (assert ElemOk(es.elem); ProtectedRepeat(es.elem.value, stage, path) || RepeatInElems(es.rest, stage, path))
  }

  /** Some member's value holds a repeat, at the path its own key gives it. */
  ghost predicate RepeatInMembers(ms: Members, stage: Stage, path: Path)
    requires MembersOk(ms)
  {
    && ms.Members?
    && (assert ElemOk(ms.member.elem);
        || ProtectedRepeat(ms.member.elem.value, stage, path + [Key(Decoded(ms.member.key))])
        || RepeatInMembers(ms.rest, stage, path))
  }

  /** What the walk refuses in the rest of an object, `seen` being the protected keys before it. */
  ghost predicate RepeatsSeen(keys: seq<Text>, stage: Stage, path: Path, seen: set<Text>) {
    Repeated(keys, stage, path) || exists i :: 0 <= i < |keys| && keys[i] in seen && Protected(stage, path, keys[i])
  }

  lemma {:induction false} RepeatsSeenStep(keys: seq<Text>, stage: Stage, path: Path, seen: set<Text>)
    requires keys != []
    ensures var guarded := Protected(stage, path, keys[0]);
      RepeatsSeen(keys, stage, path, seen)
      == ((guarded && keys[0] in seen)
          || RepeatsSeen(keys[1..], stage, path, if guarded then seen + {keys[0]} else seen))
    ensures |keys| == 1 ==>
      !RepeatsSeen(keys[1..], stage, path, if Protected(stage, path, keys[0]) then seen + {keys[0]} else seen)
  {
  }

  // ---- The walk on printed text ----

  lemma {:induction false} WsAt(b: bytes, i: nat, s: bytes)
    requires At(b, i, s) && AllSpace(s) && (i + |s| < |b| ==> !IsSpace(b[i + |s|]))
    ensures Ws(b, i) == i + |s|
    decreases |s|
  {
    if s != [] {
      AtByte(b, i, s, 0);
      assert s == s[..1] + s[1..];
      AtConcat(b, i, s[..1], s[1..]);
      WsAt(b, i + 1, s[1..]);
    }
  }

  lemma {:induction false} PieceDecodes(b: bytes, i: nat, p: Piece)
    requires PieceOk(p) && At(b, i, PrintPiece(p))
    ensures PrintPiece(p) != [] && i < |b| && b[i] != QUOTE
    ensures CharDecode(b, i) == Some((i + |PrintPiece(p)|, PieceScalar(p)))
  {
    hide Hex4;
    hide HexValue;
    hide Combine;
    hide Scalar;
    AtByte(b, i, PrintPiece(p), 0);
    match p {
      case Raw(c) => Utf8CharAt(b, i, c);
      case Short(c) => AtByte(b, i, PrintPiece(p), 1);
      case Unit(h) => UnitAt(b, i, h);
      case Pair(h, l) => PairAt(b, i, h, l);
    }
  }

  /** Decoding a printed string gives back its characters, however each was escaped. */
  lemma {:induction false} DecodePrinted(b: bytes, i: nat, ps: Pieces)
    requires PiecesOk(ps) && At(b, i, PrintTail(ps))
    ensures Decode(b, i, i + |PrintTail(ps)|) == Some(Decoded(ps))
    decreases ps
  {
    hide CharDecode;
    hide PieceOk;
    hide PrintPiece;
    hide PieceScalar;
    if ps.End? {
      AtByte(b, i, [QUOTE], 0);
    } else {
      AtConcat(b, i, PrintPiece(ps.piece), PrintTail(ps.rest));
      PieceDecodes(b, i, ps.piece);
      DecodePrinted(b, i + |PrintPiece(ps.piece)|, ps.rest);
    }
  }

  /** A printed string is read whole and rightly, if it fits. */
  lemma {:induction false} WalkQuoted(b: bytes, i: nat, ps: Pieces)
    requires PiecesOk(ps) && Printed(b, i, PrintString(ps))
    ensures i < |b| && b[i] == QUOTE
    ensures WalkString(b, i)
         == if DecodedWidth(ps) <= MAX_STRING then Some((i + |PrintString(ps)|, Decoded(ps))) else None
  {
    hide ScanString;
    hide Decode;
    hide Utf8From;
    hide Decoded;
    hide DecodedWidth;
    hide PrintTail;
    hide PrintString;
    StringAt(b, i, ps);
    assert Ws(b, i) == i;
    ScanPrinted(b, i + 1, ps, 0);
    DecodePrinted(b, i + 1, ps);
  }

  /** A value starts with a byte that is neither white space nor a closing bracket. */
  lemma {:induction false} ValueStarts(b: bytes, i: nat, v: Json)
    requires JsonOk(v) && At(b, i, PrintJson(v))
    ensures PrintJson(v) != [] && i < |b| && !IsSpace(b[i]) && b[i] != RBRACKET
  {
    AtByte(b, i, PrintJson(v), 0);
  }

  ghost predicate Fine(v: Json, stage: Stage, path: Path)
    requires JsonOk(v)
  {
    StringsFit(v) && !ProtectedRepeat(v, stage, path)
  }

  lemma {:induction false} WalkScalar(b: bytes, i: nat, v: Json, path: Path, stage: Stage)
    requires JsonOk(v) && !v.Str? && !v.Arr? && !v.Obj?
    requires At(b, i, PrintJson(v)) && Delimited(b, i + |PrintJson(v)|)
    ensures WalkAt(b, i, path, stage) == Some(i + |PrintJson(v)|)
  {
    hide WalkObject;
    hide WalkArray;
    hide WalkString;
    hide ScalarEnd;
    hide PrintJson;
    hide JsonOk;
    hide At;
    hide Word;
    ScalarAt(b, i, v);
    WordsApart(b, i);
  }

  lemma {:induction false} WalkJson(b: bytes, i: nat, v: Json, path: Path, stage: Stage)
    requires JsonOk(v) && Printed(b, i, PrintJson(v)) && Delimited(b, i + |PrintJson(v)|)
    ensures WalkAt(b, i, path, stage) == if Fine(v, stage, path) then Some(i + |PrintJson(v)|) else None
    decreases v, 1
  {
    hide Utf8From;
    hide WalkObject;
    hide WalkArray;
    hide WalkString;
    match v {
      case Str(ps) => WalkQuoted(b, i, ps);
      case Arr(items, gap) => WalkArr(b, i, v, path, stage);
      case Obj(members, gap) => WalkObj(b, i, v, path, stage);
      case _ => WalkScalar(b, i, v, path, stage);
    }
  }

  /** An element and the white space around it. */
  lemma {:induction false} WalkElem(b: bytes, i: nat, e: Elem, path: Path, stage: Stage)
    requires ElemOk(e) && Printed(b, i, PrintElem(e))
    requires var end := i + |PrintElem(e)|; Delimited(b, end) && (end < |b| ==> !IsSpace(b[end]))
    ensures Ws(b, i) < |b| && b[Ws(b, i)] != RBRACKET
    ensures var r := WalkValue(b, i, path, stage);
      && WalkValue(b, Ws(b, i), path, stage) == r
      && (r.Some? <==> Fine(e.value, stage, path))
      && (r.Some? ==> Ws(b, r.value) == i + |PrintElem(e)|)
    decreases e, 2
  {
    hide JsonOk;
    hide Ws;
    hide Utf8From;
    hide WalkAt;
    hide PrintElem;
    hide PrintJson;
    hide Fine;
    ElemAt(b, i, e);
    var j := i + |e.lead|;
    ValueStarts(b, j, e.value);
    WsAt(b, i, e.lead);
    WsAt(b, j, []);
    WalkJson(b, j, e.value, path, stage);
    WsAt(b, j + |PrintJson(e.value)|, e.trail);
  }

  lemma {:induction false} WalkArr(b: bytes, i: nat, v: Json, path: Path, stage: Stage)
    requires v.Arr? && JsonOk(v) && Printed(b, i, PrintJson(v))
    ensures i < |b| && b[i] == LBRACKET
    ensures WalkArray(b, i, path, stage) == if Fine(v, stage, path) then Some(i + |PrintJson(v)|) else None
    decreases v, 0
  {
    hide Utf8From;
    hide PrintJson;
    hide WalkElements;
    ArrayAt(b, i, v);
    assert Fine(v, stage, path)
        == (StringsFitElems(v.items) && !RepeatInElems(v.items, stage, path + [ArrayElement]));
    if v.items.NoElem? {
      WsAt(b, i + 1, v.gap);
    } else {
      WalkElems(b, i + 1, v.items, path + [ArrayElement], stage);
    }
  }

  /** One turn of the array loop, `end` being where the element's text ends. */
  lemma {:induction false} WalkItem(b: bytes, i: nat, e: Elem, path: Path, stage: Stage)
    requires ElemOk(e) && Printed(b, i, PrintElem(e))
    requires var end := i + |PrintElem(e)|; Delimited(b, end) && end < |b| && !IsSpace(b[end])
    ensures Ws(b, i) < |b| && b[Ws(b, i)] != RBRACKET
    ensures var end := i + |PrintElem(e)|;
      WalkElements(b, Ws(b, i), path, stage)
      == if !Fine(e.value, stage, path) then None
         else if b[end] == COMMA then WalkElements(b, Ws(b, end + 1), path, stage)
         else if b[end] == RBRACKET then Some(end + 1)
         else None
    decreases e, 3
  {
    hide Utf8From;
    hide PrintElem;
    hide ElemOk;
    hide Fine;
    hide WalkValue;
    hide Ws;
    WalkElem(b, i, e, path, stage);
  }

  lemma {:induction false} WalkElems(b: bytes, i: nat, es: Elems, path: Path, stage: Stage)
    requires es.Elems? && ElemsOk(es) && Printed(b, i, PrintElems(es))
    ensures Ws(b, i) < |b| && b[Ws(b, i)] != RBRACKET
    ensures WalkElements(b, Ws(b, i), path, stage)
         == if StringsFitElems(es) && !RepeatInElems(es, stage, path) then Some(i + |PrintElems(es)|) else None
    decreases es, 4
  {
    hide Utf8From;
    hide PrintElem;
    hide PrintElems;
    hide WalkElements;
    hide Ws;
    hide At;
    ElemsAt(b, i, es);
    WalkItem(b, i, es.elem, path, stage);
    if es.rest.Elems? { WalkElems(b, i + |PrintElem(es.elem)| + 1, es.rest, path, stage); }
  }

  lemma {:induction false} ObjectIsFine(v: Json, path: Path, stage: Stage)
    requires v.Obj? && JsonOk(v)
    ensures Fine(v, stage, path)
         == (StringsFitMembers(v.members) && !Repeated(Keys(v.members), stage, path)
             && !RepeatInMembers(v.members, stage, path))
    ensures v.members.NoMember? ==> Fine(v, stage, path)
  {
  }

  lemma {:induction false} WalkObj(b: bytes, i: nat, v: Json, path: Path, stage: Stage)
    requires v.Obj? && JsonOk(v) && Printed(b, i, PrintJson(v))
    ensures i < |b| && b[i] == LBRACE
    ensures WalkObject(b, i, path, stage) == if Fine(v, stage, path) then Some(i + |PrintJson(v)|) else None
    decreases v, 0
  {
    hide Utf8From;
    hide PrintJson;
    hide PrintMembers;
    hide WalkMembers;
    hide Protected;
    hide Fine;
    hide StringsFitMembers;
    hide RepeatInMembers;
    hide Repeated;
    hide Ws;
    ObjectAt(b, i, v);
    ObjectIsFine(v, path, stage);
    if v.members.NoMember? {
      WsAt(b, i + 1, v.gap);
    } else {
      WalkMembs(b, i + 1, v.members, path, stage, {});
      assert !RepeatsSeen(Keys(v.members), stage, path, {}) <==> !Repeated(Keys(v.members), stage, path);
    }
  }

  /** The parts of one member, as the walk meets them. */
  lemma {:induction false} WalkMember(b: bytes, i: nat, m: Member, path: Path, stage: Stage)
    requires AllSpace(m.lead) && PiecesOk(m.key) && AllSpace(m.gap) && ElemOk(m.elem)
    requires Printed(b, i, PrintMember(m))
    requires var end := i + |PrintMember(m)|; Delimited(b, end) && (end < |b| ==> !IsSpace(b[end]))
    ensures Ws(b, i) < |b| && b[Ws(b, i)] != RBRACE
    ensures var s := WalkString(b, Ws(b, i));
      && (s.Some? <==> DecodedWidth(m.key) <= MAX_STRING)
      && (s.Some? ==>
            var j := Ws(b, s.value.0);
            && s.value.1 == Decoded(m.key) && j < |b| && b[j] == COLON
            && var r := WalkValue(b, j + 1, path + [Key(Decoded(m.key))], stage);
               && (r.Some? <==> Fine(m.elem.value, stage, path + [Key(Decoded(m.key))]))
               && (r.Some? ==> Ws(b, r.value) == i + |PrintMember(m)|))
    decreases m, 3
  {
    hide Utf8From;
    hide PrintMember;
    hide PrintElem;
    hide PrintString;
    hide WalkValue;
    hide Decoded;
    hide DecodedWidth;
    hide StringsFit;
    hide ProtectedRepeat;
    hide WalkString;
    hide Ws;
    MemberAt(b, i, m);
    var j := i + |m.lead|;
    var k := j + |PrintString(m.key)|;
    WalkQuoted(b, j, m.key);
    WsAt(b, i, m.lead);
    WsAt(b, k, m.gap);
    WalkElem(b, k + |m.gap| + 1, m.elem, path + [Key(Decoded(m.key))], stage);
  }

  /** One turn of the object loop, `end` being where the member's text ends. */
  lemma {:induction false} WalkTurn(b: bytes, i: nat, m: Member, path: Path, stage: Stage, seen: set<Text>)
    requires AllSpace(m.lead) && PiecesOk(m.key) && AllSpace(m.gap) && ElemOk(m.elem)
    requires Printed(b, i, PrintMember(m))
    requires var end := i + |PrintMember(m)|; Delimited(b, end) && end < |b| && !IsSpace(b[end])
    ensures Ws(b, i) < |b| && b[Ws(b, i)] != RBRACE
    ensures
      var key, end := Decoded(m.key), i + |PrintMember(m)|;
      var guarded := Protected(stage, path, key);
      WalkMembers(b, Ws(b, i), path, stage, seen)
      == if || DecodedWidth(m.key) > MAX_STRING || (guarded && key in seen)
            || !Fine(m.elem.value, stage, path + [Key(key)])
         then None
         else if b[end] == COMMA then
           WalkMembers(b, Ws(b, end + 1), path, stage, if guarded then seen + {key} else seen)
         else if b[end] == RBRACE then Some(end + 1)
         else None
    decreases m, 4
  {
    hide Utf8From;
    hide PrintMember;
    hide WalkValue;
    hide WalkString;
    hide Ws;
    hide Protected;
    hide Fine;
    hide Decoded;
    hide DecodedWidth;
    hide PiecesOk;
    hide ElemOk;
    WalkMember(b, i, m, path, stage);
  }

  lemma {:induction false} WalkMembs(b: bytes, i: nat, ms: Members, path: Path, stage: Stage, seen: set<Text>)
    requires ms.Members? && MembersOk(ms) && Printed(b, i, PrintMembers(ms))
    ensures Ws(b, i) < |b| && b[Ws(b, i)] != RBRACE
    ensures WalkMembers(b, Ws(b, i), path, stage, seen)
         == if && StringsFitMembers(ms) && !RepeatInMembers(ms, stage, path)
               && !RepeatsSeen(Keys(ms), stage, path, seen)
            then Some(i + |PrintMembers(ms)|) else None
    decreases ms, 5
  {
    hide Utf8From;
    hide PrintMember;
    hide PrintMembers;
    hide WalkMembers;
    hide Ws;
    hide Protected;
    hide RepeatsSeen;
    hide Decoded;
    hide DecodedWidth;
    MembersAt(b, i, ms);
    WalkTurn(b, i, ms.member, path, stage, seen);
    RepeatsSeenStep(Keys(ms), stage, path, seen);
    assert Keys(ms)[1..] == Keys(ms.rest);
    if ms.rest.Members? {
      var key := Decoded(ms.member.key);
      WalkMembs(b, i + |PrintMember(ms.member)| + 1, ms.rest, path, stage,
                if Protected(stage, path, key) then seen + {key} else seen);
    }
  }

  /** The walk takes a printed document unless a string is too long or a protected key repeats. */
  lemma {:induction false} WalkerRefusesRepeats(e: Elem, stage: Stage)
    requires ElemOk(e)
    ensures WalksThrough(PrintElem(e), stage) <==> StringsFit(e.value) && !ProtectedRepeat(e.value, stage, [])
  {
    hide PrintElem;
    DocumentAt(e);
    WalkElem(PrintElem(e), 0, e, [], stage);
  }

  /** Nothing below the root decides the root stage, and nothing at all the mapping stage. */
  lemma {:induction false} NothingProtectedIn(v: Json, stage: Stage, path: Path)
    requires JsonOk(v) && (stage.Mapping? || (stage.Root? && path != []))
    ensures !ProtectedRepeat(v, stage, path)
    decreases v, 0
  {
    match v {
      case Arr(items, gap) => NothingProtectedInElems(items, stage, path + [ArrayElement]);
      case Obj(members, gap) => NothingProtectedInMembers(members, stage, path);
      case _ =>
    }
  }

  lemma {:induction false} NothingProtectedInElems(es: Elems, stage: Stage, path: Path)
    requires ElemsOk(es) && (stage.Mapping? || (stage.Root? && path != []))
    ensures !RepeatInElems(es, stage, path)
    decreases es, 1
  {
    if es.Elems? {
      assert ElemOk(es.elem);
      NothingProtectedIn(es.elem.value, stage, path);
      NothingProtectedInElems(es.rest, stage, path);
    }
  }

  lemma {:induction false} NothingProtectedInMembers(ms: Members, stage: Stage, path: Path)
    requires MembersOk(ms) && (stage.Mapping? || stage.Root?)
    ensures !RepeatInMembers(ms, stage, path)
    decreases ms, 1
  {
    if ms.Members? {
      assert ElemOk(ms.member.elem);
      NothingProtectedIn(ms.member.elem.value, stage, path + [Key(Decoded(ms.member.key))]);
      NothingProtectedInMembers(ms.rest, stage, path);
    }
  }

  ghost predicate Twice(keys: seq<Text>, key: Text) {
    exists i, j :: 0 <= i < j < |keys| && keys[i] == keys[j] == key
  }

  /** At the root stage the only repeat that counts is a second `cluster_uuid` in the outermost object. */
  lemma {:induction false} RootRepeatIsTopLevel(v: Json)
    requires JsonOk(v)
    ensures ProtectedRepeat(v, Root, [])
        <==> v.Obj? && Twice(Keys(v.members), CLUSTER_UUID)
  {
    match v {
      case Arr(items, gap) =>
        NothingProtectedInElems(items, Root, [ArrayElement]);
        assert [] + [ArrayElement] == [ArrayElement];
      case Obj(members, gap) =>
        var keys := Keys(members);
        NothingProtectedInMembers(members, Root, []);
        assert ProtectedRepeat(v, Root, []) == Repeated(keys, Root, []);
        if Repeated(keys, Root, []) {
          var i, j :| 0 <= i < j < |keys| && keys[i] == keys[j] && Protected(Root, [], keys[i]);
          assert keys[i] == keys[j] == CLUSTER_UUID;
        }
        if Twice(keys, CLUSTER_UUID) {
          var i, j :| 0 <= i < j < |keys| && keys[i] == keys[j] == CLUSTER_UUID;
          assert Protected(Root, [], keys[i]);
        }
      case _ =>
    }
  }

  /** What the handshake takes of a document its deserializer parses. */
  lemma {:induction false} StageAccepts(e: Elem, stage: Stage)
    requires ElemOk(e)
    ensures ScanFrom(PrintElem(e), 0, 0, 0) && WalksThrough(PrintElem(e), stage)
        <==> && Depth(e.value) <= MAX_DEPTH && Tokens(e.value) <= MAX_TOKENS
             && StringsFit(e.value) && !ProtectedRepeat(e.value, stage, [])
  {
    ScannerAcceptsWithinBounds(e);
    WalkerRefusesRepeats(e, stage);
  }
}
