/** The spool writer: per-dataset active files, rotation, publication, and what all of it conserves. */
module SpoolWriter {
  import opened Bytes
  import opened Lines
  import opened RecoveryText
  import opened SpoolBooks
  import opened SpoolCrash
  import opened SpoolDirectory
  import opened SpoolText
  import Recovery
  import RecoveryState

  /** A document as it is spooled: its dataset's slug, and its compact JSON text. */
  datatype Doc = Doc(slug: string, line: bytes)

  /** A file recovery had no reason to move holds no records. */
  lemma {:induction false} NothingStrandedIsBlank(valid: Json, file: bytes)
    requires RecordsOf(valid, file) == [] && !Spoilt(valid, file)
    ensures Blank(file)
  {
    var all := Split(file, 0, |file|);
    forall l | l in all ensures l.raw == [] {
      assert !Bad(valid, l.raw);
      if Good(valid, l.raw) { GoodIsThere(valid, all, l); }
    }
    BlankLines(file, 0);
    assert Fragment(file) == [];
  }

  lemma {:induction false} GoodIsThere(valid: Json, lines: seq<Line>, l: Line)
    requires l in lines && Good(valid, l.raw)
    ensures GoodLines(valid, lines) != []
  {
    if l != lines[0] { GoodIsThere(valid, lines[1..], l); }
  }

  lemma {:induction false} BlankLines(file: bytes, from: nat)
    requires from <= |file| && forall l :: l in Split(file, from, |file|) ==> l.raw == []
    ensures forall k :: from <= k < from + Span(Split(file, from, |file|)) && k < |file| ==> file[k] == NEWLINE
    decreases |file| - from
  {
    var n := NextNewline(file, from, |file|);
    if n < |file| {
      var all := Split(file, from, |file|);
      assert all[0] == Line(from, file[from..n]);
      assert all[1..] == Split(file, n + 1, |file|);
      BlankLines(file, n + 1);
    }
  }

  // ---- Steps of the history ----

  /** Work on one dataset that only adds to its history. */
  lemma {:induction false} OneLater(b: Books, c: Books, slug: string)
    requires OnlyOn(b, c, slug) && Get(b.finals, slug) <= Get(c.finals, slug)
    requires Get(b.written, slug) <= Get(c.written, slug)
    ensures Later(b, c)
  {
  }

  /** The directories a step adds to the past are those the new books answer for. */
  lemma {:induction false} PastFollows(b: Books, c: Books, past: seq<Files>, past': seq<Files>, since: nat)
    requires LeftSince(b, past, since) && Later(b, c) && past <= past' && AllConserved(c)
    requires forall k :: |past| <= k < |past'| ==> past'[k] == c.files
    ensures LeftSince(c, past', since)
  {
    hide Leaves;
    hide Later;
    ConservedLeaves(c);
    LeftSinceGrows(b, c, past, past', since);
  }

  lemma {:induction false} ReservationLeaves(b: Books, e: Files, slug: string, next: nat)
    requires AllConserved(b) && Reserving(b.files, e) && b.next <= next <= U32_MAX
    ensures Leaves(b, e)
  {
    hide Leaves;
    ReservationKeeps(b, e, slug, next);
    ConservedLeaves(b.(files := e, next := next));
    LeavesLater(b.(files := e, next := next), b, e);
  }

  /** A publication that succeeds: the reservation, then the rename over it. */
  lemma {:induction false} PublishFollows(
    b: Books, slug: string, final: Name, next: nat, past: seq<Files>, past': seq<Files>, since: nat)
    requires AllConserved(b) && slug in b.spools && b.spools[slug].buffered == []
    requires FreshFinal(final, b.files) && final.slug == slug
    requires Active(slug) in b.files && AtFloor(b.files[Active(slug)])
    requires b.next <= final.number <= U32_MAX && next == SaturatingNext(final.number)
    requires LeftSince(b, past, since)
    requires past' == past + [b.files[final := []], Published(b, slug, final, next).files]
    ensures var c := Published(b, slug, final, next);
      AllConserved(c) && OnlyOn(b, c, slug) && LeftSince(c, past', since)
  {
    hide AllConserved;
    hide LeftSince;
    hide OnlyOn;
    var c, reserved := Published(b, slug, final, next), b.files[final := []];
    PublishKeeps(b, slug, final, next);
    ReservationLeaves(b, reserved, slug, b.next);
    LeftSinceGrows(b, b, past, past + [reserved], since);
    OneLater(b, c, slug);
    PastFollows(b, c, past + [reserved], past', since);
  }

  /** The writes of one padding. */
  lemma {:induction false} PadFollows(
    b: Books, slug: string, steps: seq<bytes>, past: seq<Files>, past': seq<Files>, since: nat)
    requires AllConserved(b) && slug in b.spools && b.spools[slug].buffered == []
    requires Active(slug) in b.files && b.files[Active(slug)] != [] && LeftSince(b, past, since)
    requires forall i :: 0 <= i < |steps| ==> PadStep(b.files[Active(slug)], steps[i])
    requires past <= past' && |past'| == |past| + |steps|
    requires forall i :: 0 <= i < |steps| ==> past'[|past| + i] == b.files[Active(slug) := steps[i]]
    ensures LeftSince(b, past', since)
  {
    hide AllConserved;
    hide LeftSince;
    hide Leaves;
    hide PadStep;
    forall k | |past| <= k < |past'| ensures Leaves(b, past'[k]) {
      assert past'[|past| + (k - |past|)] == b.files[Active(slug) := steps[k - |past|]];
      PadStepLeaves(b, slug, steps[k - |past|]);
    }
    LeftSinceGrows(b, b, past, past', since);
  }

  /** A publication that fails: at most an empty reservation is left. */
  lemma {:induction false} ReservationFollows(
    b: Books, slug: string, e: Files, next: nat, past: seq<Files>, past': seq<Files>, since: nat)
    requires AllConserved(b) && Reserving(b.files, e) && b.next <= next <= U32_MAX
    requires LeftSince(b, past, since) && past <= past'
    requires forall k :: |past| <= k < |past'| ==> Reserving(b.files, past'[k])
    ensures var c := b.(files := e, next := next);
      AllConserved(c) && OnlyOn(b, c, slug) && LeftSince(c, past', since)
  {
    hide AllConserved;
    hide LeftSince;
    hide Leaves;
    hide Reserving;
    var c := b.(files := e, next := next);
    ReservationKeeps(b, e, slug, next);
    forall k | |past| <= k < |past'| ensures Leaves(c, past'[k]) {
      ReservationLeaves(b, past'[k], slug, b.next);
      LeavesLater(b, c, past'[k]);
    }
    LeftSinceGrows(b, c, past, past', since);
  }

  lemma FreshBefore(b: Books, c: Books, slug: string, final: Name)
    requires OnlyOn(b, c, slug) && FreshFinal(final, c.files)
    ensures FreshFinal(final, b.files)
  {
  }

  class SpoolWriter {
    const dir: Directory
    const maxFileBytes: nat
    const maxFileAge: nat
    var spools: map<string, DatasetSpool>

    /** The directory the writer started on, and where its past begins. */
    ghost const start: Files
    const since: nat

    /** History, per dataset: the finals published, and the documents written. */
    ghost var finals: map<string, seq<Name>>
    ghost var written: map<string, seq<bytes>>

    ghost function Now(): Books
      reads this, dir
    {
      Books(start, dir.files, dir.nextSeq, spools, finals, written)
    }

    /** Conservation holds now, and at every moment since the start the directory held a prefix. */
    ghost predicate Valid()
      reads this, dir
    {
      dir.Valid() && AllConserved(Now()) && since < |dir.past| && LeftSince(Now(), dir.past, since)
    }

    /** A writer starts only on a directory that recovery has finished with. */
    constructor (dir: Directory, maxFileBytes: nat, maxFileAge: nat, ghost valid: Json)
      requires dir.Valid() && RecoveryState.NothingStranded(valid, dir.files) && Floor(dir.files)
      ensures Valid() && this.dir == dir
      ensures Now() == Books(dir.files, dir.files, dir.nextSeq, map[], map[], map[])
    {
      this.dir, this.maxFileBytes, this.maxFileAge := dir, maxFileBytes, maxFileAge;
      start, since := dir.files, |dir.past| - 1;
      spools, finals, written := map[], map[], map[];
      new;
      forall slug ensures Conserved(Now(), slug) {
        if Active(slug) in dir.files { NothingStrandedIsBlank(valid, dir.files[Active(slug)]); }
      }
      ConservedLeaves(Now());
    }

    /** Opens the active file of a dataset, truncating it. The truncation never hits a record. */
    method EnsureSpool(slug: string) returns (ok: bool)
      requires Valid()
      modifies this`spools, dir`files, dir`past
      ensures Valid() && OnlyOn(old(Now()), Now(), slug) && (ok ==> slug in spools)
      ensures Now() == old(Now()) || (slug !in old(spools) && Now() == Opened(old(Now()), slug))
      ensures slug !in old(spools) && Active(slug) in old(dir.files) ==> Blank(old(dir.files)[Active(slug)])
    {
      hide AllConserved;
      hide LeftSince;
      if slug in spools { return true; }
      ghost var b, past := Now(), dir.past;
      OpenKeeps(b, slug);
      var refused: bool := *;
      if refused { return false; }
      dir.Store(Active(slug), []);
      spools := spools[slug := DatasetSpool([], 0)];
      OneLater(b, Now(), slug);
      PastFollows(b, Now(), past, dir.past, since);
      ok := true;
    }

    /** Moves part of the buffer to the file. The stream stays what it was. */
    method Drain(slug: string, count: nat)
      requires Valid() && slug in spools && count <= |spools[slug].buffered|
      modifies this`spools, dir`files, dir`past
      ensures Valid() && OnlyOn(old(Now()), Now(), slug)
      ensures Active(slug) in old(dir.files) && Now() == Drained(old(Now()), slug, count)
    {
      hide AllConserved;
      hide LeftSince;
      ghost var b, past := Now(), dir.past;
      DrainKeeps(b, slug, count);
      var spool := spools[slug];
      dir.Store(Active(slug), dir.files[Active(slug)] + spool.buffered[..count]);
      spools := spools[slug := spool.(buffered := spool.buffered[count..])];
      OneLater(b, Now(), slug);
      PastFollows(b, Now(), past, dir.past, since);
    }

    /** Flushes the buffer. A failing flush may still have moved a part of it. */
    method Flush(slug: string) returns (ok: bool)
      requires Valid() && slug in spools
      modifies this`spools, dir`files, dir`past
      ensures Valid() && OnlyOn(old(Now()), Now(), slug) && slug in spools
      ensures spools[slug].currentFileBytes == old(spools)[slug].currentFileBytes
      ensures ok ==> spools[slug].buffered == []
      ensures finals == old(finals) && forall n :: n in dir.files ==> n in old(dir.files)
    {
      hide AllConserved;
      hide LeftSince;
      ok := *;
      var count :| 0 <= count <= |spools[slug].buffered|;
      Drain(slug, if ok then |spools[slug].buffered| else count);
    }

    /** Appends one document and its newline to the dataset's stream. */
    method Append(slug: string, line: bytes)
      requires Valid() && slug in spools && Compact(line)
      modifies this`spools, this`written, dir`files, dir`past
      ensures Valid() && OnlyOn(old(Now()).(written := written), Now(), slug) && slug in spools
      ensures written == old(written)[slug := Get(old(written), slug) + [line]]
    {
      hide Later;
      hide AllConserved;
      hide LeftSince;
      ghost var b, past := Now(), dir.past;
      AppendKeeps(b, slug, line);
      var spool := spools[slug];
      spools := spools[slug := DatasetSpool(spool.buffered + line + [NEWLINE], spool.currentFileBytes + |line| + 1)];
      written := written[slug := Get(written, slug) + [line]];
      OneLater(b, Now(), slug);
      PastFollows(b, Now(), past, dir.past, since);
      var count :| 0 <= count <= |spools[slug].buffered|;
      Drain(slug, count);
    }

    /** Pads a closed active file, write by write. A refusal leaves it as it was; a process that dies
        between two of the writes leaves the last record torn. */
    method PadActive(slug: string) returns (ok: bool)
      requires Valid() && slug in spools && spools[slug].buffered == [] && spools[slug].currentFileBytes > 0
      modifies this`spools, dir`files, dir`past
      ensures Valid() && OnlyOn(old(Now()), Now(), slug) && finals == old(finals)
      ensures slug in spools && spools[slug].buffered == [] && Active(slug) in dir.files
      ensures ok ==> AtFloor(dir.files[Active(slug)])
      ensures forall n :: n in dir.files ==> n in old(dir.files)
    {
      hide Padded;
      hide LineAligned;
      hide AtFloor;
      hide TornAt;
      hide PadStep;
      hide AllConserved;
      hide LeftSince;
      hide Leaves;
      hide Conserved;
      ghost var b, past := Now(), dir.past;
      PadKeeps(b, slug);
      var fault :| fault == NoFault || fault == Untouched;
      var steps, padded;
      steps, padded, ok := PadSpoolFinal(dir.files[Active(slug)], fault);
      dir.Rewrite(Active(slug), steps);
      PadFollows(b, slug, steps, past, dir.past, since);
      if ok {
        assert dir.files == b.files[Active(slug) := padded];
        spools := spools[slug := DatasetSpool([], |padded|)];
        LeftSinceGrows(b, Now(), dir.past, dir.past, since);
      } else {
        assert dir.files == b.files;
      }
    }

    /** Publishes a closed, padded file under a fresh name. When that fails the file is re-opened
        for append, so no later write truncates it. */
    method PublishClosed(slug: string) returns (ok: bool)
      requires Valid() && slug in spools && spools[slug].buffered == []
      requires Active(slug) in dir.files && AtFloor(dir.files[Active(slug)])
      modifies this`spools, this`finals, dir
      ensures Valid() && OnlyOn(old(Now()), Now(), slug)
      ensures ok ==> exists final: Name, next ::
        FreshFinal(final, old(dir.files)) && Now() == Published(old(Now()), slug, final, next)
      ensures !ok ==> slug in spools && finals == old(finals)
    {
      hide AllConserved;
      hide LeftSince;
      hide OnlyOn;
      hide Reserving;
      ghost var b, past := Now(), dir.past;
      var millis: nat := *;
      var r := dir.Publish(Active(slug), slug, millis);
      ok := r.Reserved?;
      if ok {
        PublishFollows(b, slug, r.name, dir.nextSeq, past, dir.past, since);
        spools := spools - {slug};
        finals := finals[slug := Get(finals, slug) + [r.name]];
        assert FreshFinal(r.name, b.files) && Now() == Published(b, slug, r.name, dir.nextSeq);
      } else {
        ReservationFollows(b, slug, dir.files, dir.nextSeq, past, dir.past, since);
      }
    }

    method CloseEmpty(slug: string) returns (ok: bool)
      requires Valid() && slug in spools && spools[slug] == DatasetSpool([], 0)
      modifies this`spools, dir`files, dir`past
      ensures Valid() && OnlyOn(old(Now()), Now(), slug) && slug !in spools && finals == old(finals)
    {
      hide AllConserved;
      hide LeftSince;
      ghost var b, past := Now(), dir.past;
      CloseEmptyKeeps(b, slug, b.files);
      CloseEmptyKeeps(b, slug, b.files - {Active(slug)});
      spools := spools - {slug};
      ok := dir.RemoveIfExists(Active(slug));
      OneLater(b, Now(), slug);
      PastFollows(b, Now(), past, dir.past, since);
    }

    /** Flushes and closes an active file, publishes it or removes it when it is empty, and opens a
        new one when asked to. A failure leaves every document written where it was. */
    method ClosePublishAndReplace(slug: string, replaceActive: bool) returns (ok: bool)
      requires Valid() && slug in spools
      modifies this`spools, this`finals, dir
      ensures Valid() && OnlyOn(old(Now()), Now(), slug)
      ensures ok && old(spools)[slug].currentFileBytes > 0 ==> exists final: Name ::
        (FreshFinal(final, old(dir.files)) && Get(finals, slug) == Get(old(finals), slug) + [final])
      ensures ok ==> (slug in spools <==> replaceActive)
      ensures ok && replaceActive ==> spools[slug] == DatasetSpool([], 0)
    {
      hide AllConserved;
      hide LeftSince;
      hide Elsewhere;
      ghost var b := Now();
      ok := Flush(slug);
      if !ok { return; }
      ghost var c := Now();
      if spools[slug].currentFileBytes == 0 {
        ok := CloseEmpty(slug);
      } else {
        ok := PadActive(slug);
        OnlyOnTwice(b, c, Now(), slug);
        if !ok { return; }
        c := Now();
        ok := PublishClosed(slug);
        forall final | FreshFinal(final, c.files) ensures FreshFinal(final, b.files) { FreshBefore(b, c, slug, final); }
      }
      OnlyOnTwice(b, c, Now(), slug);
      if !ok { return; }
      c := Now();
      if replaceActive {
        ok := EnsureSpool(slug);
        OnlyOnTwice(b, c, Now(), slug);
      }
    }

    method RotateIfNeeded(slug: string, ageExceeded: bool) returns (ok: bool)
      requires Valid() && slug in spools
      modifies this`spools, this`finals, dir
      ensures Valid() && OnlyOn(old(Now()), Now(), slug) && (ok ==> slug in spools)
    {
      hide AllConserved;
      hide LeftSince;
      var sizeExceeded := maxFileBytes > 0 && spools[slug].currentFileBytes > maxFileBytes;
      ok := true;
      if sizeExceeded || (maxFileAge > 0 && ageExceeded) {
        ok := ClosePublishAndReplace(slug, true);
      }
    }

    /** Spools documents grouped by dataset. Each dataset receives its documents in order, all of
        them on success and a prefix on failure, and the conservation law holds either way. */
    method WriteDocs(docs: seq<Doc>) returns (ok: bool)
      requires Valid() && forall d :: d in docs ==> Compact(d.line)
      modifies this, dir
      ensures Valid()
      ensures forall slug :: WroteSome(Get(old(written), slug), Get(written, slug), LinesFor(docs, slug))
      ensures ok ==> forall slug :: Get(written, slug) == Get(old(written), slug) + LinesFor(docs, slug)
    {
      ghost var start := written;
      var groups := set d | d in docs :: d.slug;
      StartOfGroups(start, docs, groups);
      while groups != {}
        invariant Valid() && Progress(start, written, docs, groups)
        decreases groups
      {
        var slug :| slug in groups;
        LinesAreCompact(docs, slug);
        ghost var before := written;
        ok := WriteGroup(slug, LinesFor(docs, slug));
        if !ok {
          StoppedInGroup(start, before, written, docs, groups, slug);
          return;
        }
        NextGroup(start, before, written, docs, groups, slug);
        groups := groups - {slug};
      }
      AllGroups(start, written, docs);
      ok := true;
    }

    /** One document, and the rotation it may set off. */
    method WriteLine(slug: string, line: bytes) returns (ok: bool)
      requires Valid() && slug in spools && Compact(line)
      modifies this, dir
      ensures Valid() && (ok ==> slug in spools)
      ensures written == old(written)[slug := Get(old(written), slug) + [line]]
    {
      hide AllConserved;
      hide LeftSince;
      hide OnlyOn;
      Append(slug, line);
      var aged: bool := *;
      ok := RotateIfNeeded(slug, aged);
    }

    /** The documents of one dataset, in order. */
    method WriteGroup(slug: string, lines: seq<bytes>) returns (ok: bool)
      requires Valid() && forall l :: l in lines ==> Compact(l)
      modifies this, dir
      ensures Valid() && OtherDatasets(old(written), written, slug)
      ensures WroteSome(Get(old(written), slug), Get(written, slug), lines)
      ensures ok ==> Get(written, slug) == Get(old(written), slug) + lines
    {
      hide AllConserved;
      hide LeftSince;
      hide OnlyOn;
      hide Opened;
      hide Blank;
      hide WroteSome;
      hide OtherDatasets;
      hide Get;
      ghost var start := Get(written, slug);
      SameDatasets(written, slug);
      SomePrefix(start, lines);
      ok := EnsureSpool(slug);
      if !ok { return; }
      for i := 0 to |lines|
        invariant Valid() && slug in spools && OtherDatasets(old(written), written, slug)
        invariant Get(written, slug) == start + lines[..i]
      {
        assert start + lines[..i + 1] == start + lines[..i] + [lines[i]];
        ghost var before := written;
        ok := WriteLine(slug, lines[i]);
        WroteLine(old(written), before, written, slug, lines[i]);
        if !ok { return; }
      }
      assert lines[..|lines|] == lines;
      ok := Flush(slug);
    }

    /** Rotates the open files that are old enough and not empty; `stale` is what the clock says. */
    method RotateStaleFiles(stale: set<string>) returns (ok: bool)
      requires Valid()
      modifies this`spools, this`finals, dir
      ensures Valid() && forall slug :: Get(written, slug) == Get(old(written), slug)
    {
      if maxFileAge == 0 { return true; }
      var todo := set slug | slug in spools && slug in stale && spools[slug].currentFileBytes > 0;
      while todo != {}
        invariant Valid() && forall slug :: slug in todo ==> slug in spools
        decreases todo
      {
        var slug :| slug in todo;
        ghost var b := Now();
        ok := ClosePublishAndReplace(slug, true);
        if !ok { return; }
        todo := todo - {slug};
        assert forall s :: s in todo ==> s in b.spools && s != slug;
      }
      ok := true;
    }

    /** Closes and publishes every open file, going on past a failure. When all of it succeeds,
        every document ever written is in a published final. */
    method FinalizeAll() returns (ok: bool)
      requires Valid()
      modifies this`spools, this`finals, dir
      ensures Valid() && forall slug :: Get(written, slug) == Get(old(written), slug)
      ensures ok ==> spools == map[]
      ensures ok ==> forall slug :: Delivered(Now(), slug)
    {
      ok := true;
      var todo := spools.Keys;
      while todo != {}
        invariant Valid() && todo <= spools.Keys
        invariant ok ==> spools.Keys == todo
        decreases todo
      {
        var slug :| slug in todo;
        ghost var b := Now();
        var closed := ClosePublishAndReplace(slug, false);
        ok := ok && closed;
        todo := todo - {slug};
        assert forall s :: s in todo ==> s in b.spools && s != slug;
        assert forall s :: s in spools && s != slug ==> s in b.spools;
      }
      forall slug | ok ensures Delivered(Now(), slug) { assert Conserved(Now(), slug); }
    }
  }

  ghost predicate WroteSome(before: seq<bytes>, after: seq<bytes>, lines: seq<bytes>) {
    exists k :: 0 <= k <= |lines| && after == before + lines[..k]
  }

  lemma SomePrefix(before: seq<bytes>, lines: seq<bytes>)
    ensures forall k :: 0 <= k <= |lines| ==> WroteSome(before, before + lines[..k], lines)
    ensures WroteSome(before, before, lines) && WroteSome(before, before + lines, lines)
  {
    assert before + lines[..0] == before && lines[..|lines|] == lines;
  }

  ghost predicate OtherDatasets(before: map<string, seq<bytes>>, after: map<string, seq<bytes>>, slug: string) {
    forall s :: s != slug ==> Get(after, s) == Get(before, s)
  }

  lemma SameDatasets(written: map<string, seq<bytes>>, slug: string)
    ensures OtherDatasets(written, written, slug)
  {
  }

  lemma WroteLine(start: map<string, seq<bytes>>, before: map<string, seq<bytes>>, after: map<string, seq<bytes>>,
                  slug: string, line: bytes)
    requires OtherDatasets(start, before, slug) && after == before[slug := Get(before, slug) + [line]]
    ensures OtherDatasets(start, after, slug) && Get(after, slug) == Get(before, slug) + [line]
  {
  }

  /** The datasets still to write have nothing of the batch, the others all of theirs. */
  ghost predicate Progress(
    start: map<string, seq<bytes>>, now: map<string, seq<bytes>>, docs: seq<Doc>, groups: set<string>)
  {
    forall slug :: Get(now, slug) == Get(start, slug) + (if slug in groups then [] else LinesFor(docs, slug))
  }

  lemma {:induction false} StartOfGroups(start: map<string, seq<bytes>>, docs: seq<Doc>, groups: set<string>)
    requires groups == set d | d in docs :: d.slug
    ensures Progress(start, start, docs, groups)
  {
    forall slug | slug !in groups ensures LinesFor(docs, slug) == [] { NoLines(docs, slug); }
  }

  lemma {:induction false} NextGroup(
    start: map<string, seq<bytes>>, before: map<string, seq<bytes>>, after: map<string, seq<bytes>>,
    docs: seq<Doc>, groups: set<string>, slug: string)
    requires Progress(start, before, docs, groups) && slug in groups && OtherDatasets(before, after, slug)
    requires Get(after, slug) == Get(before, slug) + LinesFor(docs, slug)
    ensures Progress(start, after, docs, groups - {slug})
  {
  }

  lemma {:induction false} StoppedInGroup(
    start: map<string, seq<bytes>>, before: map<string, seq<bytes>>, after: map<string, seq<bytes>>,
    docs: seq<Doc>, groups: set<string>, slug: string)
    requires Progress(start, before, docs, groups) && slug in groups && OtherDatasets(before, after, slug)
    requires WroteSome(Get(before, slug), Get(after, slug), LinesFor(docs, slug))
    ensures forall s :: WroteSome(Get(start, s), Get(after, s), LinesFor(docs, s))
  {
    hide LinesFor;
    hide WroteSome;
    hide Get;
    forall s ensures WroteSome(Get(start, s), Get(after, s), LinesFor(docs, s)) {
      SomePrefix(Get(start, s), LinesFor(docs, s));
      assert Get(start, s) + [] == Get(start, s);
      assert Get(before, s) == Get(start, s) + (if s in groups then [] else LinesFor(docs, s));
      if s != slug { assert Get(after, s) == Get(before, s); }
    }
  }

  lemma {:induction false} AllGroups(start: map<string, seq<bytes>>, now: map<string, seq<bytes>>, docs: seq<Doc>)
    requires Progress(start, now, docs, {})
    ensures forall slug :: Get(now, slug) == Get(start, slug) + LinesFor(docs, slug)
    ensures forall slug :: WroteSome(Get(start, slug), Get(now, slug), LinesFor(docs, slug))
  {
    forall slug ensures WroteSome(Get(start, slug), Get(now, slug), LinesFor(docs, slug)) {
      assert LinesFor(docs, slug)[..|LinesFor(docs, slug)|] == LinesFor(docs, slug);
    }
  }

  /** The documents of a batch that belong to one dataset, in order. */
  function LinesFor(docs: seq<Doc>, slug: string): seq<bytes> {
    if docs == [] then []
    else (if docs[0].slug == slug then [docs[0].line] else []) + LinesFor(docs[1..], slug)
  }

  lemma {:induction false} NoLines(docs: seq<Doc>, slug: string)
    requires forall d :: d in docs ==> d.slug != slug
    ensures LinesFor(docs, slug) == []
  {
    if docs != [] { NoLines(docs[1..], slug); }
  }

  lemma {:induction false} LinesAreCompact(docs: seq<Doc>, slug: string)
    requires forall d :: d in docs ==> Compact(d.line)
    ensures forall l :: l in LinesFor(docs, slug) ==> Compact(l)
  {
    if docs != [] { LinesAreCompact(docs[1..], slug); }
  }

  lemma OnceEach(b: Books, slug: string)
    requires Conserved(b, slug)
    ensures NoRepeats(Get(b.finals, slug))
  {
  }

  /** The writer dies at some moment, and the next start recovers what it left. When that finishes, each
      dataset's finals hold, in order and once each, the documents that were complete on disk. */
  method DieAndRecover(writer: SpoolWriter, valid: Json) returns (left: Files, recovered: Files, finished: bool)
    requires writer.Valid()
    ensures Leaves(writer.Now(), left)
    ensures finished ==> forall slug :: CleanActive(valid, left, slug) ==>
              DiskInFinals(writer.Now(), left, recovered, slug)
  {
    var k :| writer.since <= k < |writer.dir.past|;
    left := writer.dir.past[k];
    ghost var b := writer.Now();
    assert Leaves(b, left) && forall slug :: Conserved(b, slug);
    hide Leaves;
    hide Conserved;
    hide Holds;
    var dir := new Directory(left);
    finished := Recovery.RecoverStrandedFiles(dir, valid);
    recovered := dir.files;
    assert writer.Now() == b;
    forall slug | finished && CleanActive(valid, left, slug)
      ensures DiskInFinals(b, left, recovered, slug)
    {
      OnceEach(b, slug);
      CrashThenRecovery(valid, b, left, recovered, slug);
    }
  }

  /** A pad that stops between its truncation and its newline breaks conservation, whatever follows:
      the next document joins the torn record's line. */
  lemma {:induction false} TornPaddingLosesADocument(file: bytes, written: nat, line: bytes)
    requires LineAligned(file) && file != [] && Compact(line)
    ensures |DocsOf(TornAt(file, written) + (line + [NEWLINE]))| == |DocsOf(file)|
    ensures DocsOf(TornAt(file, written) + (line + [NEWLINE])) != DocsOf(file) + [line]
  {
    var torn := TornAt(file, written);
    var m := LastLine(file);
    var whole := torn + (line + [NEWLINE]);
    assert forall i :: 0 <= i < |file| - 1 ==> whole[i] == file[i];
    SplitSame(file, whole, 0, m);
    NoEarlierNewline(file, m, |file|);
    forall k | m <= k < |whole| - 1 ensures whole[k] != NEWLINE {
      if k >= |torn| { assert whole[k] == line[k - |torn|] && whole[k] in line; }
    }
    NextNewlineIs(whole, m, |whole|, |whole| - 1);
    SplitLast(file, m);
    SplitLast(whole, m);
  }

  /** A failed pad keeps conservation exactly when it left the file alone. */
  lemma {:induction false} FailedPadExactly(file: bytes, after: bytes, line: bytes)
    requires LineAligned(file) && file != [] && Compact(line)
    requires after == file || exists written :: after == TornAt(file, written)
    ensures DocsOf(after + (line + [NEWLINE])) == DocsOf(file) + [line] <==> after == file
  {
    if after == file {
      DocsOfConcat(file, line + [NEWLINE]);
      DocsOfLine(line);
    } else {
      var written :| after == TornAt(file, written);
      TornPaddingLosesADocument(file, written, line);
    }
  }

  /** A write that fails after part of a document reached the stream breaks conservation exactly when there
      is such a part: the next document joins it. */
  lemma {:induction false} FailedWriteExactly(stream: bytes, part: bytes, line: bytes)
    requires LineAligned(stream) && NEWLINE !in part && Compact(line)
    ensures DocsOf(stream + part + (line + [NEWLINE])) == DocsOf(stream) + [line] <==> part == []
  {
    var joined := part + line;
    assert stream + part + (line + [NEWLINE]) == stream + (joined + [NEWLINE]);
    DocsOfConcat(stream, joined + [NEWLINE]);
    DocsOfLine(joined);
    assert joined[|joined| - 1] == line[|line| - 1] && Trim(joined) == joined;
    if part == [] { assert joined == line; }
    if DocsOf(stream) + [joined] == DocsOf(stream) + [line] {
      assert (DocsOf(stream) + [joined])[|DocsOf(stream)|] == joined;
      assert |part| == 0;
    }
  }
}
