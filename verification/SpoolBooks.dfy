/** The spool writer's books: what its directory, open files and history must agree on, and which steps keep that. */
module SpoolBooks {
  import opened Bytes
  import opened RecoveryText
  import opened SpoolDirectory
  import opened SpoolText
  import RecoveryState

  /** An open active file: the bytes not yet flushed, and the size the writer believes it has. */
  datatype DatasetSpool = DatasetSpool(buffered: bytes, currentFileBytes: nat)

  /** The whole writer as a value: the directory it started on, the directory now and the next sequence
      number, the open files, and the history per dataset: finals published and documents written. */
  datatype Books = Books(
    start: Files, files: Files, next: nat, spools: map<string, DatasetSpool>,
    finals: map<string, seq<Name>>, written: map<string, seq<bytes>>)

  ghost function Get<T>(m: map<string, seq<T>>, slug: string): seq<T> {
    if slug in m then m[slug] else []
  }

  /** Compact JSON holds no newline and does not end in a space. */
  ghost predicate Compact(line: bytes) {
    NEWLINE !in line && line != [] && line[|line| - 1] != SPACE
  }

  /** A file with no records in it, which truncation may hit. */
  ghost predicate Blank(file: bytes) { forall b :: b in file ==> b == NEWLINE }

  /** The records of published finals, in publication order. */
  ghost function Sent(files: Files, finals: seq<Name>): seq<bytes>
    requires forall n :: n in finals ==> n in files
  {
    if finals == [] then []
    else Sent(files, finals[..|finals| - 1]) + DocsOf(files[finals[|finals| - 1]])
  }

  /** What is written to the active file of one dataset, flushed or not. */
  ghost function Stream(b: Books, slug: string): bytes
    requires slug in b.spools && Active(slug) in b.files
  {
    b.files[Active(slug)] + b.spools[slug].buffered
  }

  ghost predicate NoRepeats(names: seq<Name>) { forall i, j :: 0 <= i < j < |names| ==> names[i] != names[j] }

  /** Publication order is the order of the sequence numbers, as long as the counter is not at its end. */
  ghost predicate Numbered(names: seq<Name>, next: nat) {
    && next <= U32_MAX
    && (forall n :: n in names ==> n.Final? && (n.number < next || next == U32_MAX))
    && (forall i, j :: 0 <= i < j < |names| ==> names[i].number < names[j].number || names[j].number == U32_MAX)
  }

  /** The list names exactly the finals with content that the directory has gained, each once. */
  ghost predicate Lists(names: seq<Name>, d: Files, e: Files, slug: string) {
    NoRepeats(names) && forall n :: n in names <==> n in RecoveryState.NewFinals(d, e, slug)
  }

  /** The finals the writer has published are the finals the directory has gained, in numbered order. */
  ghost predicate OwnFinals(b: Books, slug: string) {
    && Lists(Get(b.finals, slug), b.start, b.files, slug) && Numbered(Get(b.finals, slug), b.next)
    && forall n :: n in Get(b.finals, slug) ==> n in b.files && AtFloor(b.files[n])
  }

  /** The conservation law for one dataset: the finals the directory has gained, in order, then the active
      file and buffer, hold exactly the documents written, in order and once each. */
  ghost predicate Conserved(b: Books, slug: string) {
    && OwnFinals(b, slug)
    && if slug in b.spools then
         && Active(slug) in b.files && LineAligned(Stream(b, slug))
         && |Stream(b, slug)| == b.spools[slug].currentFileBytes
         && Sent(b.files, Get(b.finals, slug)) + DocsOf(Stream(b, slug)) == Get(b.written, slug)
       else
         && (Active(slug) in b.files ==> Blank(b.files[Active(slug)]))
         && Sent(b.files, Get(b.finals, slug)) == Get(b.written, slug)
  }

  ghost predicate AllConserved(b: Books) {
    RecoveryState.Retains(b.start, b.files) && Floor(b.start) && forall slug :: Conserved(b, slug)
  }

  /** Everything written for the dataset is in the finals the directory has gained, in numbered order. */
  ghost predicate Delivered(b: Books, slug: string) {
    OwnFinals(b, slug) && Sent(b.files, Get(b.finals, slug)) == Get(b.written, slug)
  }

  lemma {:induction false} SentSame(d: Files, e: Files, finals: seq<Name>)
    requires forall n :: n in finals ==> n in d && n in e && e[n] == d[n]
    ensures Sent(d, finals) == Sent(e, finals)
  {
    if finals != [] { SentSame(d, e, finals[..|finals| - 1]); }
  }

  lemma {:induction false} SentSnoc(d: Files, e: Files, finals: seq<Name>, n: Name)
    requires (forall m :: m in finals ==> m in d && m in e && e[m] == d[m]) && n in e
    ensures Sent(e, finals + [n]) == Sent(d, finals) + DocsOf(e[n])
  {
    SentSame(d, e, finals);
    assert (finals + [n])[..|finals|] == finals;
  }

  // ---- Work on one dataset ----

  /** `e` agrees with `d` but for the active file of `slug`, new finals of `slug`, and empty reservations. */
  ghost predicate Elsewhere(d: Files, e: Files, slug: string) {
    && (forall n :: n in d && n != Active(slug) ==> n in e && e[n] == d[n])
    && (forall n :: n in e && n !in d ==>
          n == Active(slug) || (n.Final? && n.slug == slug) || (!n.Active? && e[n] == []))
  }

  /** From `b` to `c` only the dataset `slug` was worked on. */
  ghost predicate OnlyOn(b: Books, c: Books, slug: string) {
    && b.start == c.start && b.next <= c.next <= U32_MAX && Elsewhere(b.files, c.files, slug)
    && forall s :: s != slug ==>
         && (s in b.spools <==> s in c.spools) && (s in b.spools ==> b.spools[s] == c.spools[s])
         && Get(b.finals, s) == Get(c.finals, s) && Get(b.written, s) == Get(c.written, s)
  }

  lemma OnlyOnTwice(b: Books, c: Books, d: Books, slug: string)
    requires OnlyOn(b, c, slug) && OnlyOn(c, d, slug)
    ensures OnlyOn(b, d, slug)
  {
  }

  lemma {:induction false} OwnFinalsElsewhere(b: Books, c: Books, slug: string, other: string)
    requires OwnFinals(b, other) && OnlyOn(b, c, slug) && other != slug
    ensures OwnFinals(c, other) && Sent(c.files, Get(c.finals, other)) == Sent(b.files, Get(b.finals, other))
  {
    SentSame(b.files, c.files, Get(b.finals, other));
  }

  /** Work on one dataset leaves every other dataset's conservation alone. */
  lemma {:induction false} ConservedElsewhere(b: Books, c: Books, slug: string, other: string)
    requires Conserved(b, other) && OnlyOn(b, c, slug) && other != slug
    ensures Conserved(c, other)
  {
    hide OwnFinals;
    hide Sent;
    OwnFinalsElsewhere(b, c, slug, other);
  }

  lemma {:induction false} KeepAll(b: Books, c: Books, slug: string)
    requires AllConserved(b) && OnlyOn(b, c, slug) && Conserved(c, slug)
    ensures AllConserved(c)
  {
    hide Conserved;
    hide OnlyOn;
    forall s ensures Conserved(c, s) {
      if s != slug { ConservedElsewhere(b, c, slug, s); }
    }
    RetainsElsewhere(b, c, slug);
  }

  lemma RetainsElsewhere(b: Books, c: Books, slug: string)
    requires RecoveryState.Retains(b.start, b.files) && OnlyOn(b, c, slug)
    ensures RecoveryState.Retains(c.start, c.files) && b.start == c.start
  {
  }

  /** The active file and the buffer may change as they like: the finals stay the writer's own. */
  lemma {:induction false} OwnFinalsStay(b: Books, c: Books, slug: string)
    requires OwnFinals(b, slug) && b.start == c.start && Get(b.finals, slug) == Get(c.finals, slug)
    requires b.next <= c.next <= U32_MAX
    requires forall n: Name :: n.Final? ==> (n in b.files && b.files[n] != [] <==> n in c.files && c.files[n] != [])
    requires forall n: Name :: n.Final? && n in b.files && n in c.files ==> b.files[n] == c.files[n]
    ensures OwnFinals(c, slug) && Sent(c.files, Get(c.finals, slug)) == Sent(b.files, Get(b.finals, slug))
  {
    assert RecoveryState.NewFinals(b.start, b.files, slug) == RecoveryState.NewFinals(c.start, c.files, slug);
    SentSame(b.files, c.files, Get(b.finals, slug));
  }

  // ---- What each operation does to the books ----

  ghost function Opened(b: Books, slug: string): Books {
    b.(files := b.files[Active(slug) := []], spools := b.spools[slug := DatasetSpool([], 0)])
  }

  lemma {:induction false} OpenKeeps(b: Books, slug: string)
    requires AllConserved(b) && slug !in b.spools && b.next <= U32_MAX
    ensures AllConserved(Opened(b, slug)) && OnlyOn(b, Opened(b, slug), slug)
    ensures Active(slug) in b.files ==> Blank(b.files[Active(slug)])
  {
    hide OwnFinals;
    var c := Opened(b, slug);
    assert Conserved(b, slug);
    OwnFinalsStay(b, c, slug);
    DocsOfEmpty();
    assert Stream(c, slug) == [];
    KeepAll(b, c, slug);
  }

  ghost function Drained(b: Books, slug: string, count: nat): Books
    requires slug in b.spools && Active(slug) in b.files && count <= |b.spools[slug].buffered|
  {
    var spool := b.spools[slug];
    b.(files := b.files[Active(slug) := b.files[Active(slug)] + spool.buffered[..count]],
       spools := b.spools[slug := spool.(buffered := spool.buffered[count..])])
  }

  lemma {:induction false} DrainKeeps(b: Books, slug: string, count: nat)
    requires AllConserved(b) && slug in b.spools && count <= |b.spools[slug].buffered| && b.next <= U32_MAX
    ensures Conserved(b, slug) && AllConserved(Drained(b, slug, count)) && OnlyOn(b, Drained(b, slug, count), slug)
  {
    hide DocsOf;
    hide Sent;
    hide LineAligned;
    hide OwnFinals;
    assert Conserved(b, slug);
    var c := Drained(b, slug, count);
    assert Stream(c, slug) == Stream(b, slug);
    OwnFinalsStay(b, c, slug);
    KeepAll(b, c, slug);
  }

  ghost function Appended(b: Books, slug: string, line: bytes): Books
    requires slug in b.spools
  {
    var spool := b.spools[slug];
    b.(spools := b.spools[slug := DatasetSpool(spool.buffered + line + [NEWLINE], spool.currentFileBytes + |line| + 1)],
       written := b.written[slug := Get(b.written, slug) + [line]])
  }

  lemma {:induction false} StreamGrows(b: Books, slug: string, line: bytes)
    requires slug in b.spools && Active(slug) in b.files && LineAligned(Stream(b, slug)) && Compact(line)
    ensures var c := Appended(b, slug, line);
      && Stream(c, slug) == Stream(b, slug) + (line + [NEWLINE]) && LineAligned(Stream(c, slug))
      && DocsOf(Stream(c, slug)) == DocsOf(Stream(b, slug)) + [line]
  {
    var before := Stream(b, slug);
    assert Stream(Appended(b, slug, line), slug) == before + (line + [NEWLINE]);
    DocsOfConcat(before, line + [NEWLINE]);
    DocsOfLine(line);
    assert Trim(line) == line;
  }

  lemma {:induction false} AppendKeeps(b: Books, slug: string, line: bytes)
    requires AllConserved(b) && slug in b.spools && Compact(line) && b.next <= U32_MAX
    ensures AllConserved(Appended(b, slug, line)) && OnlyOn(b, Appended(b, slug, line), slug)
  {
    hide OwnFinals;
    hide DocsOf;
    hide Stream;
    hide Sent;
    assert Conserved(b, slug);
    var c := Appended(b, slug, line);
    StreamGrows(b, slug, line);
    OwnFinalsStay(b, c, slug);
    assert Sent(b.files, Get(b.finals, slug)) + (DocsOf(Stream(b, slug)) + [line])
        == Sent(b.files, Get(b.finals, slug)) + DocsOf(Stream(b, slug)) + [line];
    KeepAll(b, c, slug);
  }

  /** The closed active file, padded in place. */
  ghost function PaddedActive(b: Books, slug: string): Books
    requires slug in b.spools && Active(slug) in b.files
  {
    var padded := Padded(b.files[Active(slug)]);
    b.(files := b.files[Active(slug) := padded], spools := b.spools[slug := DatasetSpool([], |padded|)])
  }

  lemma {:induction false} PaddedStream(b: Books, slug: string)
    requires slug in b.spools && Active(slug) in b.files && b.spools[slug].buffered == []
    requires LineAligned(Stream(b, slug)) && Stream(b, slug) != []
    ensures var c := PaddedActive(b, slug);
      && Stream(b, slug) == b.files[Active(slug)] && LineAligned(Stream(c, slug)) && AtFloor(c.files[Active(slug)])
      && Stream(c, slug) == c.files[Active(slug)] && DocsOf(Stream(c, slug)) == DocsOf(Stream(b, slug))
  {
    var file := b.files[Active(slug)];
    assert Stream(b, slug) == file && Stream(PaddedActive(b, slug), slug) == Padded(file);
    PaddingPreserves(file);
    PaddingKeepsDocs(file);
  }

  lemma {:induction false} PadKeeps(b: Books, slug: string)
    requires AllConserved(b) && slug in b.spools && b.spools[slug].buffered == [] && b.spools[slug].currentFileBytes > 0
    requires b.next <= U32_MAX
    ensures Conserved(b, slug) && Active(slug) in b.files
    ensures LineAligned(b.files[Active(slug)]) && b.files[Active(slug)] != []
    ensures var c := PaddedActive(b, slug); AllConserved(c) && OnlyOn(b, c, slug) && AtFloor(c.files[Active(slug)])
  {
    hide DocsOf;
    hide Sent;
    hide OwnFinals;
    hide Stream;
    hide LineAligned;
    hide Padded;
    assert Conserved(b, slug);
    PaddedStream(b, slug);
    OwnFinalsStay(b, PaddedActive(b, slug), slug);
    KeepAll(b, PaddedActive(b, slug), slug);
  }

  ghost predicate FreshFinal(n: Name, d: Files) { n.Final? && n !in d }

  ghost function Published(b: Books, slug: string, final: Name, next: nat): Books
    requires slug in b.spools && Active(slug) in b.files
  {
    b.(files := (b.files - {Active(slug)})[final := b.files[Active(slug)]], next := next, spools := b.spools - {slug},
       finals := b.finals[slug := Get(b.finals, slug) + [final]])
  }

  /** The new final joins the writer's own, last in order. */
  lemma {:induction false} OwnFinalsGrow(b: Books, c: Books, slug: string, final: Name)
    requires OwnFinals(b, slug) && b.start == c.start && RecoveryState.Retains(b.start, b.files)
    requires FreshFinal(final, b.files) && final.slug == slug
    requires Active(slug) in b.files && c.files == (b.files - {Active(slug)})[final := b.files[Active(slug)]]
    requires AtFloor(b.files[Active(slug)]) && Get(c.finals, slug) == Get(b.finals, slug) + [final]
    requires b.next <= final.number <= U32_MAX && c.next == SaturatingNext(final.number)
    ensures OwnFinals(c, slug)
    ensures Sent(c.files, Get(c.finals, slug)) == Sent(b.files, Get(b.finals, slug)) + DocsOf(c.files[final])
  {
    hide Sent;
    hide DocsOf;
    var before := RecoveryState.NewFinals(b.start, b.files, slug);
    var after := RecoveryState.NewFinals(c.start, c.files, slug);
    assert after == before + {final};
    SentSnoc(b.files, c.files, Get(b.finals, slug), final);
  }

  /** The closed file is published under a fresh final: its records move from pending to sent. */
  lemma {:induction false} PublishKeeps(b: Books, slug: string, final: Name, next: nat)
    requires AllConserved(b) && slug in b.spools && b.spools[slug].buffered == []
    requires FreshFinal(final, b.files) && final.slug == slug
    requires Active(slug) in b.files && AtFloor(b.files[Active(slug)])
    requires b.next <= final.number <= U32_MAX && next == SaturatingNext(final.number)
    ensures Conserved(b, slug) && AllConserved(Published(b, slug, final, next))
    ensures OnlyOn(b, Published(b, slug, final, next), slug)
  {
    hide OwnFinals;
    hide Sent;
    assert Conserved(b, slug);
    var c := Published(b, slug, final, next);
    assert Stream(b, slug) == b.files[Active(slug)] == c.files[final];
    OwnFinalsGrow(b, c, slug, final);
    KeepAll(b, c, slug);
  }

  /** A failed publication may leave an empty reservation behind, and nothing else. */
  lemma {:induction false} ReservationKeeps(b: Books, e: Files, slug: string, next: nat)
    requires AllConserved(b) && Reserving(b.files, e) && b.next <= next <= U32_MAX
    ensures var c := b.(files := e, next := next); AllConserved(c) && OnlyOn(b, c, slug)
  {
    hide OwnFinals;
    var c := b.(files := e, next := next);
    forall s ensures Conserved(c, s) {
      assert Conserved(b, s);
      OwnFinalsStay(b, c, s);
    }
  }

  ghost function Closed(b: Books, slug: string, e: Files): Books { b.(files := e, spools := b.spools - {slug}) }

  lemma {:induction false} CloseEmptyKeeps(b: Books, slug: string, e: Files)
    requires AllConserved(b) && slug in b.spools && b.spools[slug] == DatasetSpool([], 0) && b.next <= U32_MAX
    requires e == b.files || e == b.files - {Active(slug)}
    ensures AllConserved(Closed(b, slug, e)) && OnlyOn(b, Closed(b, slug, e), slug)
  {
    hide OwnFinals;
    var c := Closed(b, slug, e);
    assert Conserved(b, slug);
    assert Stream(b, slug) == [];
    DocsOfEmpty();
    OwnFinalsStay(b, c, slug);
    KeepAll(b, c, slug);
  }
}
