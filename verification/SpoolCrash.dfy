/** A writer that dies: what its directory holds at any moment, and what recovery makes of that. */
module SpoolCrash {
  import opened Bytes
  import opened Lines
  import opened RecoveryState
  import opened RecoveryText
  import opened SpoolBooks
  import opened SpoolDirectory
  import opened SpoolText

  /** The complete lines of a dataset's active file, if it holds any record. */
  ghost function OnDisk(e: Files, slug: string): seq<bytes> {
    if Active(slug) in e && !Blank(e[Active(slug)]) then DocsOf(e[Active(slug)]) else []
  }

  /** The directory has gained the first `m` finals of the dataset and no others; with the active file they
      hold a prefix of what was written. */
  ghost predicate Holds(b: Books, e: Files, slug: string, m: nat) {
    && m <= |Get(b.finals, slug)|
    && (forall n :: n in Get(b.finals, slug)[..m] <==> n in NewFinals(b.start, e, slug))
    && Sent(e, Get(b.finals, slug)[..m]) + OnDisk(e, slug) <= Get(b.written, slug)
  }

  ghost predicate HoldsPrefix(b: Books, e: Files, slug: string) { exists m: nat :: Holds(b, e, slug, m) }

  /** A directory the writer may leave behind when it dies: finals at the reader's floor, the older ones
      untouched, and of every dataset a prefix of its documents, in order and once each. */
  ghost predicate Leaves(b: Books, e: Files) {
    Retains(b.start, e) && Floor(e) && forall slug :: HoldsPrefix(b, e, slug)
  }

  /** So it is at every moment since the writer started. */
  ghost predicate LeftSince(b: Books, past: seq<Files>, since: nat) {
    forall k :: since <= k < |past| ==> Leaves(b, past[k])
  }

  // ---- Histories only grow ----

  ghost predicate Later(b: Books, c: Books) {
    && b.start == c.start
    && forall slug :: Get(b.finals, slug) <= Get(c.finals, slug) && Get(b.written, slug) <= Get(c.written, slug)
  }

  lemma {:induction false} LeavesLater(b: Books, c: Books, e: Files)
    requires Leaves(b, e) && Later(b, c)
    ensures Leaves(c, e)
  {
    forall slug ensures HoldsPrefix(c, e, slug) {
      assert HoldsPrefix(b, e, slug);
      var m: nat :| Holds(b, e, slug, m);
      assert Get(c.finals, slug)[..m] == Get(b.finals, slug)[..m];
      assert Holds(c, e, slug, m);
    }
  }

  lemma {:induction false} LeftSinceGrows(b: Books, c: Books, past: seq<Files>, past': seq<Files>, since: nat)
    requires LeftSince(b, past, since) && Later(b, c) && past <= past'
    requires forall k :: |past| <= k < |past'| ==> Leaves(c, past'[k])
    ensures LeftSince(c, past', since)
  {
    hide Leaves;
    hide Later;
    forall k | since <= k < |past'| ensures Leaves(c, past'[k]) {
      if k < |past| {
        assert past'[k] == past[k];
        LeavesLater(b, c, past[k]);
      }
    }
  }

  // ---- Conservation puts a prefix on disk ----

  lemma {:induction false} PrefixRecords(a: bytes, rest: bytes)
    ensures DocsOf(a) <= DocsOf(a + rest)
  {
    var whole := a + rest;
    assert forall k :: 0 <= k < |a| ==> whole[k] == a[k];
    SplitSame(a, whole, 0, |a|);
    SplitPrefix(whole, 0, |a|, |whole|);
  }

  lemma {:induction false} FinalsAtFloor(b: Books)
    requires AllConserved(b)
    ensures Floor(b.files)
  {
    forall n | n in b.files && n.Final? ensures b.files[n] == [] || AtFloor(b.files[n]) {
      assert Conserved(b, n.slug);
      if n !in b.start && b.files[n] != [] { assert n in NewFinals(b.start, b.files, n.slug); }
    }
  }

  /** While the active file holds a part of the stream, the whole list of finals is there. */
  lemma {:induction false} ConservedHolds(b: Books, slug: string)
    requires Conserved(b, slug)
    ensures HoldsPrefix(b, b.files, slug)
  {
    hide DocsOf;
    hide Blank;
    var finals := Get(b.finals, slug);
    assert finals[..|finals|] == finals;
    if slug in b.spools { PrefixRecords(b.files[Active(slug)], b.spools[slug].buffered); }
    assert Holds(b, b.files, slug, |finals|);
  }

  lemma {:induction false} ConservedLeaves(b: Books)
    requires AllConserved(b)
    ensures Leaves(b, b.files)
  {
    hide Conserved;
    hide HoldsPrefix;
    FinalsAtFloor(b);
    forall slug ensures HoldsPrefix(b, b.files, slug) { ConservedHolds(b, slug); }
  }

  /** A pad in progress, torn or not, takes nothing away but the last record. */
  lemma {:induction false} PadStepRecords(file: bytes, content: bytes)
    requires LineAligned(file) && file != [] && PadStep(file, content)
    ensures DocsOf(content) <= DocsOf(file)
  {
    if content == Padded(file) {
      PaddingKeepsDocs(file);
    } else {
      var written :| content == TornAt(file, written);
      TornPaddingDropsLast(file, written);
    }
  }

  lemma {:induction false} PadStepHolds(b: Books, slug: string, content: bytes)
    requires Conserved(b, slug) && slug in b.spools && b.spools[slug].buffered == []
    requires b.files[Active(slug)] != [] && PadStep(b.files[Active(slug)], content)
    ensures HoldsPrefix(b, b.files[Active(slug) := content], slug)
  {
    hide Sent;
    hide DocsOf;
    hide Blank;
    hide PadStep;
    var finals, file, e := Get(b.finals, slug), b.files[Active(slug)], b.files[Active(slug) := content];
    assert finals[..|finals|] == finals;
    assert Stream(b, slug) == file;
    PadStepRecords(file, content);
    SentSame(b.files, e, finals);
    assert NewFinals(b.start, e, slug) == NewFinals(b.start, b.files, slug);
    assert Holds(b, e, slug, |finals|);
  }

  lemma {:induction false} PadStepLeaves(b: Books, slug: string, content: bytes)
    requires AllConserved(b) && slug in b.spools && b.spools[slug].buffered == []
    requires Active(slug) in b.files && b.files[Active(slug)] != [] && PadStep(b.files[Active(slug)], content)
    ensures Leaves(b, b.files[Active(slug) := content])
  {
    var e := b.files[Active(slug) := content];
    FinalsAtFloor(b);
    forall s ensures HoldsPrefix(b, e, s) {
      assert Conserved(b, s);
      if s == slug {
        PadStepHolds(b, slug, content);
      } else {
        ConservedHolds(b, s);
        HoldsElsewhere(b, b.files, e, s);
      }
    }
  }

  lemma {:induction false} HoldsElsewhere(b: Books, d: Files, e: Files, slug: string)
    requires HoldsPrefix(b, d, slug)
    requires Active(slug) in d <==> Active(slug) in e
    requires Active(slug) in d ==> d[Active(slug)] == e[Active(slug)]
    requires forall n: Name :: n.Final? ==> (n in d <==> n in e) && (n in d ==> d[n] == e[n])
    ensures HoldsPrefix(b, e, slug)
  {
    hide Sent;
    hide DocsOf;
    hide Blank;
    var m: nat :| Holds(b, d, slug, m);
    assert NewFinals(b.start, d, slug) == NewFinals(b.start, e, slug);
    SentSame(d, e, Get(b.finals, slug)[..m]);
    assert Holds(b, e, slug, m);
  }

  // ---- Recovery after the crash ----

  /** Lines recovery finds good are records it keeps. */
  lemma {:induction false} AllGoodRecords(valid: Json, lines: seq<Line>)
    requires forall l :: l in lines ==> Good(valid, l.raw)
    ensures Trimmed(GoodLines(valid, lines)) == Docs(lines)
  {
    if lines != [] {
      AllGoodRecords(valid, lines[1..]);
      assert lines == [lines[0]] + lines[1..];
      assert GoodLines(valid, lines) == [lines[0].raw] + GoodLines(valid, lines[1..]);
      DocsCons(lines[0], lines[1..]);
      assert Trimmed(GoodLines(valid, lines)) == [Trim(lines[0].raw)] + Trimmed(GoodLines(valid, lines[1..]));
    }
  }

  /** Blank lines are no records. */
  lemma {:induction false} BlankRecords(valid: Json, file: bytes, from: nat)
    requires from <= |file| && Blank(file)
    ensures GoodLines(valid, Split(file, from, |file|)) == []
    decreases |file| - from
  {
    if from < |file| {
      assert file[from] in file;
      NextNewlineIs(file, from, |file|, from);
      BlankRecords(valid, file, from + 1);
      assert file[from..from] == [];
    }
  }

  /** Every complete line of the active file is a valid record of at most 1 MiB. */
  ghost predicate CleanActive(valid: Json, e: Files, slug: string) {
    Active(slug) in e && !Blank(e[Active(slug)]) ==>
      forall l :: l in Split(e[Active(slug)], 0, |e[Active(slug)]|) ==> Good(valid, l.raw)
  }

  lemma {:induction false} DiskRecords(valid: Json, e: Files, slug: string)
    requires CleanActive(valid, e, slug) && Active(slug) in e
    ensures RecordsOf(valid, e[Active(slug)]) == OnDisk(e, slug)
  {
    var file := e[Active(slug)];
    if Blank(file) {
      BlankRecords(valid, file, 0);
    } else {
      AllGoodRecords(valid, Split(file, 0, |file|));
    }
  }

  /** The finals a dataset has gained, in the order recovery adds to them. */
  ghost predicate InFinals(d: Files, f: Files, slug: string, names: seq<Name>, docs: seq<bytes>) {
    Lists(names, d, f, slug) && (forall n :: n in names ==> n in f) && Sent(f, names) == docs
  }

  /** The finals gained in `f` hold, in order and once each, what was complete on disk in `e`. */
  ghost predicate DiskInFinals(b: Books, e: Files, f: Files, slug: string) {
    exists m: nat, names ::
      Holds(b, e, slug, m) && InFinals(b.start, f, slug, names, Sent(e, Get(b.finals, slug)[..m]) + OnDisk(e, slug))
  }

  lemma WaitingRecords(valid: Json, e: Files, f: Files, slug: string)
    requires Waiting(e, f, slug) && NothingStranded(valid, f) && CleanActive(valid, e, slug)
    ensures OnDisk(e, slug) == []
  {
    if Active(slug) in e { DiskRecords(valid, e, slug); }
  }

  /** What a finished recovery adds: nothing, or one final with the records that were on disk. */
  lemma {:induction false} RecoveryAdds(valid: Json, e: Files, f: Files, slug: string)
    requires Settled(valid, e, f) && NothingStranded(valid, f) && CleanActive(valid, e, slug)
    ensures if OnDisk(e, slug) == [] then NewFinals(e, f, slug) == {}
            else exists n :: n in f && n !in e && NewFinals(e, f, slug) == {n} && DocsOf(f[n]) == OnDisk(e, slug)
  {
    assert AtRest(valid, e, f, slug);
    if Waiting(e, f, slug) {
      WaitingRecords(valid, e, f, slug);
    } else {
      DiskRecords(valid, e, slug);
      StagedRecords(valid, e[Active(slug)]);
      if OnDisk(e, slug) != [] {
        var n :| n in f && NewFinals(e, f, slug) == {n} && f[n] == Rescue(valid, e[Active(slug)]);
        assert n in NewFinals(e, f, slug);
      }
    }
  }

  /** The finals gained before the crash, and the one recovery adds, if any. */
  lemma {:induction false} FinalsJoin(d: Files, e: Files, f: Files, slug: string, sent: seq<Name>, more: seq<Name>)
    requires Retains(d, e) && Retains(e, f) && NoRepeats(sent) && |more| <= 1
    requires forall n :: n in sent <==> n in NewFinals(d, e, slug)
    requires forall n :: n in more <==> n in NewFinals(e, f, slug)
    requires forall n :: n in sent ==> n in e
    ensures more != [] ==> more[0] in f
    ensures InFinals(d, f, slug, sent + more, Sent(e, sent) + if more == [] then [] else DocsOf(f[more[0]]))
  {
    hide Sent;
    hide DocsOf;
    NewFinalsAdd(d, e, f, slug);
    forall n | n in sent ensures n in f && f[n] == e[n] { assert n in NewFinals(d, e, slug); }
    if more == [] {
      assert sent + more == sent;
      SentSame(e, f, sent);
    } else {
      assert more == [more[0]] && more[0] in more;
      assert more[0] in NewFinals(e, f, slug);
      assert more[0] !in sent;
      SentSnoc(e, f, sent, more[0]);
    }
  }

  /** Whenever the writer dies, and one recovery then finishes: the finals each dataset has gained hold,
      in order and once each, exactly the documents that were complete on disk, a prefix of those written. */
  lemma {:induction false} CrashThenRecovery(valid: Json, b: Books, e: Files, f: Files, slug: string)
    requires NoRepeats(Get(b.finals, slug)) && Leaves(b, e)
    requires Settled(valid, e, f) && NothingStranded(valid, f) && CleanActive(valid, e, slug)
    ensures DiskInFinals(b, e, f, slug)
  {
    hide DocsOf;
    hide OnDisk;
    hide CleanActive;
    hide Sent;
    hide AtRest;
    hide InFinals;
    hide NothingStranded;
    assert HoldsPrefix(b, e, slug);
    var m: nat :| Holds(b, e, slug, m);
    var sent := Get(b.finals, slug)[..m];
    RecoveryAdds(valid, e, f, slug);
    var more: seq<Name> := [];
    if OnDisk(e, slug) != [] {
      var n :| n in f && n !in e && NewFinals(e, f, slug) == {n} && DocsOf(f[n]) == OnDisk(e, slug);
      more := [n];
    }
    FinalsJoin(b.start, e, f, slug, sent, more);
    assert Sent(e, sent) + [] == Sent(e, sent);
    assert InFinals(b.start, f, slug, sent + more, Sent(e, sent) + OnDisk(e, slug));
  }
}
