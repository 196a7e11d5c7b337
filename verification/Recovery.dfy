/** Startup recovery of files a crash left behind, with every directory it passes through. */
module Recovery {
  import opened Wrappers
  import opened Bytes
  import opened Lines
  import opened RecoveryReader
  import opened RecoveryState
  import opened RecoveryText
  import opened SpoolDirectory
  import opened SpoolText

  /** `e` has everything `d` has outside staging, no new active file, and no new final or quarantine
      with content. */
  ghost predicate Beside(d: Files, e: Files) {
    && (forall n :: n in d && !n.Staging? ==> n in e && e[n] == d[n])
    && (forall n :: n in e && n !in d ==> n.Staging? || (!n.Active? && e[n] == []))
  }

  /** Every directory since `since` is beside `d`. */
  ghost predicate BesideSince(dir: Directory, since: nat, d: Files)
    reads dir
  {
    && dir.Valid() && since <= |dir.past| && Beside(d, dir.files)
    && forall k :: since <= k < |dir.past| ==> Beside(d, dir.past[k])
  }

  /** Every directory since `since` was passed through on the way from `d`. */
  ghost predicate PassedSince(dir: Directory, since: nat, valid: Json, d: Files)
    reads dir
  {
    && dir.Valid() && since <= |dir.past| && Passed(valid, d, dir.files)
    && forall k :: since <= k < |dir.past| ==> Passed(valid, d, dir.past[k])
  }

  lemma BesideIsSettled(valid: Json, d: Files, e: Files)
    requires Beside(d, e)
    ensures Settled(valid, d, e) && Passed(valid, d, e)
  {
    forall slug ensures AtRest(valid, d, e, slug) {
      assert Waiting(d, e, slug);
    }
    SettledPassed(valid, d, e);
  }

  lemma BesidePassedSince(dir: Directory, since: nat, valid: Json, d: Files)
    requires BesideSince(dir, since, d)
    ensures PassedSince(dir, since, valid, d)
  {
    BesideIsSettled(valid, d, dir.files);
    forall k | since <= k < |dir.past| ensures Passed(valid, d, dir.past[k]) { BesideIsSettled(valid, d, dir.past[k]); }
  }

  /** The directory is `d`, plus the staging file if there is one. */
  ghost predicate Staged(d: Files, files: Files, stage: Option<Name>) {
    match stage
    case None => files == d
    case Some(name) => name.Staging? && name !in d && name in files && files == d[name := files[name]]
  }

  /** Adds one record to the staged text, creating the staging file for the first one. The writer
      buffers, so any prefix of the text may have reached the file. */
  method WriteRecord(dir: Directory, slug: string, millis: nat, stage: Option<Name>, text: bytes, content: bytes,
                     ghost d: Files, ghost since: nat)
    returns (ok: bool, stage': Option<Name>, text': bytes)
    requires BesideSince(dir, since, d) && Staged(d, dir.files, stage)
    modifies dir`files, dir`past
    ensures old(dir.past) <= dir.past && BesideSince(dir, since, d)
    ensures ok ==> stage'.Some? && Staged(d, dir.files, stage') && text' == text + content + [NEWLINE]
  {
    stage' := stage;
    if stage.None? {
      var name := Staging(slug, millis, dir.nextSeq);
      var made := dir.CreateNew(name);
      if !made.Created? { return false, None, text; }
      stage' := Some(name);
    }
    text' := text + content + [NEWLINE];
    var flushed :| 0 <= flushed <= |text'|;
    dir.Store(stage'.value, text'[..flushed]);
    ok := true;
  }

  /** Reads a stranded file line by line, staging the good ones. */
  method StageGoodLines(dir: Directory, valid: Json, slug: string, millis: nat, file: bytes,
                        ghost d: Files, ghost since: nat)
    returns (ok: bool, stage: Option<Name>, text: bytes, spoilt: bool)
    requires BesideSince(dir, since, d) && dir.files == d
    modifies dir`files, dir`past
    ensures old(dir.past) <= dir.past && BesideSince(dir, since, d)
    ensures ok ==>
      && spoilt == Spoilt(valid, file) && text == Text(GoodLines(valid, Split(file, 0, |file|)))
      && Staged(d, dir.files, stage) && (stage.Some? <==> text != [])
  {
    hide Beside;
    hide Split;
    hide Span;
    hide Malformed;
    hide GoodLines;
    hide Text;
    hide Fragment;
    hide NextNewline;
    var reader := new BufReader(file);
    ghost var all, i := Split(file, 0, |file|), 0;
    var malformed := false;
    NoLinesYet(valid, all);
    text, stage := [], None;
    while true
      invariant reader.Valid() && fresh(reader) && reader.data == file
      invariant old(dir.past) <= dir.past && BesideSince(dir, since, d) && Staged(d, dir.files, stage)
      invariant i <= |all| && reader.pos == Span(all[..i])
      invariant text == Text(GoodLines(valid, all[..i])) && (stage.Some? <==> text != [])
      invariant malformed == Malformed(valid, all[..i])
      decreases |all| - i
    {
      LineAfter(file, i);
      var line := ReadRecoveryLine(reader);
      if line.None? || !line.value.terminated {
        // The end, or a last fragment: the next read finds nothing more.
        assert all[..i] == all;
        ok, spoilt := true, malformed || line.Some?;
        return;
      }
      NextLine(valid, all, i);
      var content := line.value.content;
      if line.value.oversize || content == [] {
        malformed := malformed || line.value.oversize;
      } else if valid(content) {
        var wrote;
        wrote, stage, text := WriteRecord(dir, slug, millis, stage, text, content, d, since);
        if !wrote { return false, stage, text, false; }
      } else {
        malformed := true;
      }
      i := i + 1;
    }
  }

  lemma NoLinesYet(valid: Json, lines: seq<Line>)
    ensures Span(lines[..0]) == 0 && Text(GoodLines(valid, lines[..0])) == [] && !Malformed(valid, lines[..0])
  {
  }

  // ---- Recovery of one file ----

  /** The names fit what the stranded file is owed: a fresh final for its records, a fresh
      quarantine name when it is spoilt. */
  ghost predicate Owed(valid: Json, d: Files, slug: string, text: bytes, final: Option<Name>, kept: Option<Name>) {
    && Active(slug) in d
    && text == Text(GoodLines(valid, Split(d[Active(slug)], 0, |d[Active(slug)]|)))
    && (final.Some? <==> text != []) && (kept.Some? <==> Spoilt(valid, d[Active(slug)]))
    && (final.Some? ==> final.value.Final? && final.value.slug == slug && final.value !in d)
    && (kept.Some? ==> kept.value.Quarantine? && kept.value.slug == slug && kept.value !in d)
  }

  /** `d`, with the final published and the quarantine name reserved. */
  ghost function Ready(d: Files, text: bytes, final: Option<Name>, kept: Option<Name>): Files {
    var e := if kept.None? then d else d[kept.value := []];
    if final.None? then e else e[final.value := Padded(text)]
  }

  /** The directory once the stranded file of `slug` has been dealt with. */
  ghost function Done(d: Files, slug: string, text: bytes, final: Option<Name>, kept: Option<Name>): Files
    requires Active(slug) in d
  {
    if final.None? && kept.None? then d
    else
      var e := d - {Active(slug)};
      var f := if final.None? then e else e[final.value := Padded(text)];
      if kept.None? then f else f[kept.value := d[Active(slug)]]
  }

  /** With the records published, the file counts as published, and nothing else has changed. */
  lemma {:induction false} ReadyIsPassed(
    valid: Json, d: Files, slug: string, text: bytes, final: Option<Name>, owed: Option<Name>, kept: Option<Name>)
    requires Owed(valid, d, slug, text, final, owed) && (kept == owed || kept.None?)
    ensures Passed(valid, d, Ready(d, text, final, kept))
    ensures final.Some? ==> Published(valid, d, Ready(d, text, final, kept), slug)
  {
    hide Spoilt;
    hide RecordsOf;
    hide Padded;
    hide Text;
    hide GoodLines;
    hide Split;
    var e := Ready(d, text, final, kept);
    StagedRecords(valid, d[Active(slug)]);
    forall s ensures Classified(valid, d, e, s) {
      if s == slug && final.Some? {
        assert NewFinals(d, e, slug) == {final.value};
        assert e[final.value] == Rescue(valid, d[Active(slug)]);
        assert Published(valid, d, e, s);
      } else {
        assert Waiting(d, e, s);
      }
    }
  }

  lemma {:induction false} DoneIsSettled(
    valid: Json, d: Files, slug: string, text: bytes, final: Option<Name>, kept: Option<Name>)
    requires Owed(valid, d, slug, text, final, kept)
    ensures Settled(valid, d, Done(d, slug, text, final, kept)) && Passed(valid, d, Done(d, slug, text, final, kept))
    ensures Disposed(valid, d, Done(d, slug, text, final, kept), slug) <==> final.Some? || kept.Some?
  {
    hide Spoilt;
    hide RecordsOf;
    hide Padded;
    hide Text;
    hide GoodLines;
    hide Split;
    var e := Done(d, slug, text, final, kept);
    StagedRecords(valid, d[Active(slug)]);
    if kept.Some? { SpoiltNotEmpty(valid, d[Active(slug)]); }
    forall s ensures AtRest(valid, d, e, s) {
      if s == slug && (final.Some? || kept.Some?) {
        assert final.Some? ==> NewFinals(d, e, slug) == {final.value} && e[final.value] == Padded(text);
        assert kept.Some? ==> NewQuarantines(d, e, slug) == {kept.value} && e[kept.value] == d[Active(slug)];
        assert Disposed(valid, d, e, s);
      } else {
        assert Waiting(d, e, s);
      }
    }
    SettledPassed(valid, d, e);
  }

  /** Best effort: whatever fails, nothing but staging files and unused reservations goes away. */
  method Cleanup(dir: Directory, stage: Option<Name>, reservation: Option<Name>, ghost d: Files, ghost since: nat)
    requires BesideSince(dir, since, d)
    requires stage.Some? ==> stage.value.Staging?
    requires reservation.Some? ==> reservation.value !in d && !reservation.value.Active?
    modifies dir`files, dir`past
    ensures old(dir.past) <= dir.past && BesideSince(dir, since, d)
  {
    if stage.Some? { var removed := dir.RemoveIfExists(stage.value); }
    if reservation.Some? { var removed := dir.RemoveIfExists(reservation.value); }
  }

  /** Flushes and pads the staged file; a fault leaves it for the next start to remove. */
  method PadStage(dir: Directory, stage: Name, text: bytes, ghost d: Files, ghost since: nat) returns (ok: bool)
    requires BesideSince(dir, since, d) && Staged(d, dir.files, Some(stage)) && text != [] && LineAligned(text)
    modifies dir`files, dir`past
    ensures old(dir.past) <= dir.past && BesideSince(dir, since, d)
    ensures ok ==> dir.files == d[stage := Padded(text)] && AtFloor(Padded(text))
  {
    var flushed :| 0 <= flushed <= |text|;
    RewriteStage(dir, stage, [text[..flushed]], d, since);
    if flushed < |text| { return false; }
    assert text[..flushed] == text;
    var fault :| true;
    var steps, padded;
    steps, padded, ok := PadSpoolFinal(text, fault);
    RewriteStage(dir, stage, steps, d, since);
  }

  method RewriteStage(dir: Directory, stage: Name, steps: seq<bytes>, ghost d: Files, ghost since: nat)
    requires BesideSince(dir, since, d) && Staged(d, dir.files, Some(stage))
    modifies dir`files, dir`past
    ensures old(dir.past) <= dir.past && BesideSince(dir, since, d) && Staged(d, dir.files, Some(stage))
    ensures dir.files == if steps == [] then old(dir.files) else d[stage := steps[|steps| - 1]]
  {
    ghost var files, mark, before := dir.files, |dir.past|, dir.past;
    dir.Rewrite(stage, steps);
    forall k | since <= k < |dir.past| ensures Beside(d, dir.past[k]) {
      if k < mark {
        assert dir.past[k] == before[k];
      } else {
        assert dir.past[mark + (k - mark)] == files[stage := steps[k - mark]];
      }
    }
    assert steps != [] ==> dir.files == d[stage := steps[|steps| - 1]];
  }

  method ReserveQuarantine(dir: Directory, slug: string, ghost d: Files, ghost since: nat) returns (r: Option<Name>)
    requires BesideSince(dir, since, d)
    modifies dir
    ensures old(dir.past) <= dir.past && BesideSince(dir, since, d)
    ensures r.None? ==> dir.files == old(dir.files)
    ensures r.Some? ==> r.value.Quarantine? && r.value.slug == slug && r.value !in old(dir.files)
                        && dir.files == old(dir.files)[r.value := []]
  {
    var millis: nat := *;
    var reservation := dir.Reserve(slug, millis, Spoiled);
    if !reservation.Reserved? { return None; }
    dir.nextSeq := SaturatingNext(dir.nextSeq);
    r := Some(reservation.name);
  }

  /** Publishes the staged file. Every directory before the last one is still beside `d`. */
  method PublishStaged(dir: Directory, slug: string, stage: Name, ghost d: Files, ghost since: nat)
    returns (r: Option<Name>)
    requires BesideSince(dir, since, d) && stage.Staging? && stage in dir.files
    modifies dir
    ensures old(dir.past) <= dir.past && dir.Valid()
    ensures r.None? ==> BesideSince(dir, since, d)
    ensures r.Some? ==> r.value.Final? && r.value.slug == slug && r.value !in old(dir.files)
                        && dir.files == (old(dir.files) - {stage})[r.value := old(dir.files)[stage]]
                        && since < |dir.past| && forall k :: since <= k < |dir.past| - 1 ==> Beside(d, dir.past[k])
  {
    var millis: nat := *;
    ghost var before := dir.past;
    var published := dir.Publish(stage, slug, millis);
    assert forall k :: since <= k < |before| ==> dir.past[k] == before[k];
    r := if published.Reserved? then Some(published.name) else None;
  }

  /** Publishes the staged text, if any, and reserves a quarantine name first when one is needed.
      The stranded file itself is not touched yet. */
  method PublishStage(dir: Directory, slug: string, stage: Option<Name>, text: bytes, spoilt: bool,
                      ghost d: Files, ghost since: nat)
    returns (ok: bool, final: Option<Name>, reservation: Option<Name>)
    requires BesideSince(dir, since, d) && Staged(d, dir.files, stage)
    requires stage.Some? ==> text != [] && LineAligned(text)
    modifies dir
    ensures old(dir.past) <= dir.past && dir.Valid() && since <= |dir.past|
    ensures !ok ==> BesideSince(dir, since, d)
    ensures ok ==>
      && (final.Some? <==> stage.Some?) && (reservation.Some? <==> spoilt)
      && (final.Some? ==> final.value.Final? && final.value.slug == slug && final.value !in d)
      && (reservation.Some? ==>
            reservation.value.Quarantine? && reservation.value.slug == slug && reservation.value !in d)
      && dir.files == Ready(d, text, final, reservation)
      && forall k :: since <= k < |dir.past| ==> Beside(d, dir.past[k]) || dir.past[k] == dir.files
  {
    hide Padded;
    hide LineAligned;
    hide AtFloor;
    final, reservation := None, None;
    if stage.Some? {
      ok := PadStage(dir, stage.value, text, d, since);
      if !ok { return; }
    }
    if spoilt {
      reservation := ReserveQuarantine(dir, slug, d, since);
      if reservation.None? {
        Cleanup(dir, stage, None, d, since);
        return false, None, None;
      }
    }
    if stage.Some? {
      final := PublishStaged(dir, slug, stage.value, d, since);
      if final.None? {
        Cleanup(dir, stage, reservation, d, since);
        return false, None, None;
      }
    }
    ok := true;
  }

  /** Recovers one stranded file. Every directory it passes through is classified: not published yet,
      published with the source still there, or disposed of; when it succeeds it has made one final for
      the records and kept a spoilt file. */
  method RecoverStrandedFile(dir: Directory, valid: Json, slug: string)
    returns (ok: bool, final: Option<Name>, kept: Option<Name>)
    requires dir.Valid() && Active(slug) in dir.files
    modifies dir
    ensures old(dir.past) <= dir.past && PassedSince(dir, |old(dir.past)|, valid, old(dir.files))
    ensures ok ==> exists text ::
      Owed(valid, old(dir.files), slug, text, final, kept) && dir.files == Done(old(dir.files), slug, text, final, kept)
  {
    ghost var d, since := dir.files, |dir.past|;
    var source := dir.files[Active(slug)];
    var unreadable, millis: nat := *, *;
    ok, final, kept := false, None, None;
    if unreadable {
      BesidePassedSince(dir, since, valid, d);
      return;
    }
    var staged, stage, text, spoilt := StageGoodLines(dir, valid, slug, millis, source, d, since);
    BesidePassedSince(dir, since, valid, d);
    if !staged { return; }
    StagedRecords(valid, source);
    if stage.None? && !spoilt {
      assert Owed(valid, d, slug, text, None, None);
      return true, None, None;
    }
    var published, reservation;
    published, final, reservation := PublishStage(dir, slug, stage, text, spoilt, d, since);
    if !published {
      BesidePassedSince(dir, since, valid, d);
      return false, None, None;
    }
    ReadyPassedSince(dir, since, valid, d, slug, text, final, reservation);
    ok := DisposeSource(dir, valid, slug, text, final, reservation, d, since);
    kept := reservation;
  }

  lemma ReadyPassedSince(dir: Directory, since: nat, valid: Json, d: Files, slug: string, text: bytes,
                         final: Option<Name>, kept: Option<Name>)
    requires dir.Valid() && since <= |dir.past| && Owed(valid, d, slug, text, final, kept)
    requires dir.files == Ready(d, text, final, kept)
    requires forall k :: since <= k < |dir.past| ==> Beside(d, dir.past[k]) || dir.past[k] == dir.files
    ensures PassedSince(dir, since, valid, d)
  {
    ReadyIsPassed(valid, d, slug, text, final, kept, kept);
    forall k | since <= k < |dir.past| ensures Passed(valid, d, dir.past[k]) {
      if Beside(d, dir.past[k]) { BesideIsSettled(valid, d, dir.past[k]); }
    }
  }

  /** Moves a spoilt source over its reservation, or removes a source nothing is owed to any more. When
      that is refused, the source stays, beside what has been published of it. */
  method DisposeSource(dir: Directory, valid: Json, slug: string, text: bytes,
                       final: Option<Name>, reservation: Option<Name>, ghost d: Files, ghost since: nat)
    returns (ok: bool)
    requires PassedSince(dir, since, valid, d) && dir.files == Ready(d, text, final, reservation)
    requires Owed(valid, d, slug, text, final, reservation) && (final.Some? || reservation.Some?)
    modifies dir`files, dir`past
    ensures old(dir.past) <= dir.past && PassedSince(dir, since, valid, d)
    ensures ok ==> dir.files == Done(d, slug, text, final, reservation)
    ensures !ok && final.Some? ==> Published(valid, d, dir.files, slug)
  {
    DoneIsSettled(valid, d, slug, text, final, reservation);
    ReadyIsPassed(valid, d, slug, text, final, reservation, reservation);
    ReadyIsPassed(valid, d, slug, text, final, reservation, None);
    if reservation.Some? {
      QuarantineDisposes(valid, d, slug, text, final, reservation.value);
      ok := dir.Rename(Active(slug), reservation.value);
      if !ok { var removed := dir.RemoveIfExists(reservation.value); }
    } else {
      RemovalDisposes(valid, d, slug, text, final.value);
      ok := dir.RemoveIfExists(Active(slug));
    }
  }

  lemma QuarantineDisposes(valid: Json, d: Files, slug: string, text: bytes, final: Option<Name>, kept: Name)
    requires Owed(valid, d, slug, text, final, Some(kept))
    ensures var ready := Ready(d, text, final, Some(kept));
            && Active(slug) in ready && ready - {kept} == Ready(d, text, final, None)
            && (ready - {Active(slug)})[kept := ready[Active(slug)]] == Done(d, slug, text, final, Some(kept))
  {
  }

  lemma RemovalDisposes(valid: Json, d: Files, slug: string, text: bytes, final: Name)
    requires Owed(valid, d, slug, text, Some(final), None)
    ensures Ready(d, text, Some(final), None) - {Active(slug)} == Done(d, slug, text, Some(final), None)
  {
  }

  // ---- Recovery of the whole directory ----

  method RemoveOrphans(dir: Directory, ghost d: Files, ghost since: nat) returns (ok: bool)
    requires BesideSince(dir, since, d)
    modifies dir`files, dir`past
    ensures old(dir.past) <= dir.past && BesideSince(dir, since, d)
    ensures ok ==> forall n :: n in dir.files ==> !n.Staging?
  {
    var orphans := set n | n in dir.files && n.Staging?;
    while orphans != {}
      invariant old(dir.past) <= dir.past && BesideSince(dir, since, d)
      invariant forall n :: n in orphans ==> n.Staging?
      invariant forall n :: n in dir.files && n.Staging? ==> n in orphans
      decreases orphans
    {
      var n :| n in orphans;
      ok := dir.RemoveIfExists(n);
      if !ok { return; }
      orphans := orphans - {n};
    }
    ok := true;
  }

  /** Startup recovery: drop orphaned staging files, then recover every stranded file, in whatever
      order the directory lists them. Wherever it stops, every stranded file is classified; when it
      finishes, each is settled, with one final for its records, and nothing is stranded. */
  method RecoverStrandedFiles(dir: Directory, valid: Json) returns (ok: bool)
    requires dir.Valid()
    modifies dir
    ensures old(dir.past) <= dir.past && PassedSince(dir, |old(dir.past)|, valid, old(dir.files))
    ensures ok ==> Settled(valid, old(dir.files), dir.files) && NothingStranded(valid, dir.files)
  {
    hide Passed;
    hide Settled;
    hide Stranded;
    hide Beside;
    hide SameSource;
    ghost var d, since := dir.files, |dir.past|;
    ok := RemoveOrphans(dir, d, since);
    BesidePassedSince(dir, since, valid, d);
    BesideIsSettled(valid, d, dir.files);
    if !ok { return; }
    var stranded := set n | n in dir.files && n.Active? :: n.slug;
    while stranded != {}
      invariant old(dir.past) <= dir.past && PassedSince(dir, since, valid, d) && Settled(valid, d, dir.files)
      invariant forall slug :: slug in stranded ==> Active(slug) in dir.files
      invariant forall slug :: Active(slug) in dir.files && slug !in stranded ==>
        !Stranded(valid, dir.files[Active(slug)])
      decreases stranded
    {
      var slug :| slug in stranded;
      ghost var before, mark := dir.files, |dir.past|;
      ghost var past := dir.past;
      var done, final, kept := RecoverStrandedFile(dir, valid, slug);
      assert forall k :: since <= k < mark ==> dir.past[k] == past[k];
      PassedSinceGlue(dir, since, mark, valid, d, before);
      if !done { return false; }
      OneFileDone(valid, d, before, dir.files, slug, final, kept);
      stranded := stranded - {slug};
    }
    ok := true;
  }

  lemma PassedSinceGlue(dir: Directory, since: nat, mark: nat, valid: Json, d: Files, before: Files)
    requires since <= mark && PassedSince(dir, mark, valid, before) && Settled(valid, d, before)
    requires forall k :: since <= k < mark ==> Passed(valid, d, dir.past[k])
    ensures PassedSince(dir, since, valid, d)
  {
    PassedFrom(valid, d, before, dir.files);
    forall k | mark <= k < |dir.past| ensures Passed(valid, d, dir.past[k]) {
      PassedFrom(valid, d, before, dir.past[k]);
    }
  }

  /** A finished file leaves the directory settled, and touches no other stranded file. */
  lemma OneFileDone(
    valid: Json, d: Files, before: Files, after: Files, slug: string, final: Option<Name>, kept: Option<Name>)
    requires Settled(valid, d, before)
    requires exists text ::
      Owed(valid, before, slug, text, final, kept) && after == Done(before, slug, text, final, kept)
    ensures Settled(valid, d, after)
    ensures Active(slug) in after ==> !Stranded(valid, after[Active(slug)])
    ensures forall s :: s != slug ==> SameSource(before, after, s)
  {
    hide Settled;
    hide Text;
    hide GoodLines;
    hide Split;
    hide Spoilt;
    hide RecordsOf;
    var text :| Owed(valid, before, slug, text, final, kept) && after == Done(before, slug, text, final, kept);
    DoneIsSettled(valid, before, slug, text, final, kept);
    PassedFrom(valid, d, before, after);
    StagedRecords(valid, before[Active(slug)]);
  }

  // ---- Start after start ----

  /** One start on a directory: recovery runs, and the process stops after some operation of it, or
      goes on to the end. `left` is the directory the next start finds. */
  method Start(files: Files, valid: Json) returns (left: Files, finished: bool)
    ensures Passed(valid, files, left)
    ensures finished ==> Settled(valid, files, left) && NothingStranded(valid, left)
  {
    var dir := new Directory(files);
    finished := RecoverStrandedFiles(dir, valid);
    BesideIsSettled(valid, files, files);
    var crashed: bool := *;
    if crashed {
      var k :| 0 <= k < |dir.past|;
      left, finished := dir.past[k], false;
    } else {
      left := dir.files;
    }
  }

  /** Any number of starts, each from the directory the one before it left. Nothing is lost; a stranded
      file that is gone has one final for its records, and one more for each start that ended between
      publishing them and disposing of the file; and when the last start finishes, nothing is stranded. */
  method Starts(files: Files, valid: Json, count: nat) returns (dirs: seq<Files>, finished: bool)
    requires count > 0
    ensures |dirs| == count + 1 && dirs[0] == files && Chain(valid, dirs)
    ensures Keeps(valid, files, dirs[count])
    ensures forall slug :: Accounted(valid, files, dirs[count], slug, Interruptions(valid, dirs, slug))
    ensures finished ==> NothingStranded(valid, dirs[count])
    ensures finished ==> forall slug :: Active(slug) in files && Stranded(valid, files[Active(slug)]) ==>
              Active(slug) !in dirs[count] && Rescued(valid, slug, files[Active(slug)], dirs[count])
  {
    dirs, finished := [files], false;
    for i := 0 to count
      invariant |dirs| == i + 1 && dirs[0] == files && Chain(valid, dirs)
      invariant finished ==> NothingStranded(valid, dirs[i])
    {
      var left;
      left, finished := Start(dirs[i], valid);
      dirs := dirs + [left];
    }
    ChainKeeps(valid, dirs);
    forall slug ensures Accounted(valid, files, dirs[count], slug, Interruptions(valid, dirs, slug)) {
      ChainAccounted(valid, dirs, slug);
    }
  }

  /** A start that ends between publication and disposal, by a crash or because disposal was refused, and
      one that finishes: the records have two finals. The reservation of a spoilt file may have been left. */
  lemma {:induction false} Republication(
    valid: Json, d: Files, slug: string, text: bytes, first: Name, second: Name,
    owed: Option<Name>, left: Option<Name>, kept: Option<Name>)
    requires Owed(valid, d, slug, text, Some(first), owed) && (left == owed || left.None?)
    requires Owed(valid, Ready(d, text, Some(first), left), slug, text, Some(second), kept)
    ensures var m := Ready(d, text, Some(first), left);
            var e := Done(m, slug, text, Some(second), kept);
            && Chain(valid, [d, m, e]) && Active(slug) !in e && NewFinals(d, e, slug) == {first, second}
            && |NewFinals(d, e, slug)| == 2
            && DocsOf(e[first]) == DocsOf(e[second]) == RecordsOf(valid, d[Active(slug)])
  {
    hide Spoilt;
    hide Padded;
    hide Text;
    hide GoodLines;
    hide Split;
    hide DocsOf;
    var m := Ready(d, text, Some(first), left);
    var e := Done(m, slug, text, Some(second), kept);
    ReadyIsPassed(valid, d, slug, text, Some(first), owed, left);
    DoneIsSettled(valid, m, slug, text, Some(second), kept);
    StagedRecords(valid, d[Active(slug)]);
    assert NewFinals(d, e, slug) == {first, second};
    assert |{first, second}| == 2;
  }

  /** A concrete directory on which that happens: one stranded file with one record. */
  lemma RepublicationHappens()
    ensures var d: Files := map[Active("frame") := [123, 125, NEWLINE]];
            exists dirs :: Chain(_ => true, dirs) && dirs[0] == d && |dirs| == 3
                           && Active("frame") !in dirs[2] && |NewFinals(d, dirs[2], "frame")| == 2
  {
    hide Chain;
    hide NewFinals;
    hide Done;
    hide Text;
    hide GoodLines;
    hide Split;
    var valid: Json := _ => true;
    var source: bytes := [123, 125, NEWLINE];
    var d: Files := map[Active("frame") := source];
    var first, second := Final("frame", 0, 1), Final("frame", 0, 2);
    var text := Text(GoodLines(valid, Split(source, 0, 3)));
    OneRecord(valid, source);
    var m := Ready(d, text, Some(first), None);
    Republication(valid, d, "frame", text, first, second, None, None, None);
    assert [d, m, Done(m, "frame", text, Some(second), None)][0] == d;
  }

  lemma OneRecord(valid: Json, source: bytes)
    requires source == [123, 125, NEWLINE] && valid([123, 125])
    ensures Text(GoodLines(valid, Split(source, 0, 3))) != [] && !Spoilt(valid, source)
  {
    NextNewlineIs(source, 0, 3, 2);
    assert source[0..2] == [123, 125];
    var lines := Split(source, 0, 3);
    assert Split(source, 3, 3) == [];
    assert lines == [Line(0, [123, 125])];
    assert lines[1..] == [];
    assert Span(lines) == 3;
  }
}
