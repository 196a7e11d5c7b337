/** How far recovery got with every stranded file, read off two directories, and what a chain of starts adds up to. */
module RecoveryState {
  import opened Bytes
  import opened Lines
  import opened SpoolDirectory
  import opened SpoolText
  import opened RecoveryText

  // ---- What one process adds ----

  /** The finals of a dataset that have content in `e` and were not there in `d`. */
  ghost function NewFinals(d: Files, e: Files, slug: string): set<Name> {
    set n | n in e && n.Final? && n.slug == slug && n !in d && e[n] != []
  }

  ghost function NewQuarantines(d: Files, e: Files, slug: string): set<Name> {
    set n | n in e && n.Quarantine? && n.slug == slug && n !in d && e[n] != []
  }

  /** One name, with this content. */
  ghost predicate OneCopy(names: set<Name>, e: Files, content: bytes) {
    exists n :: n in e && names == {n} && e[n] == content
  }

  /** What recovery publishes for a stranded file: its complete valid records, at the reader's floor. */
  function Rescue(valid: Json, source: bytes): bytes { Padded(Text(GoodLines(valid, Split(source, 0, |source|)))) }

  /** The file holds something recovery owes a place. */
  ghost predicate Stranded(valid: Json, source: bytes) { RecordsOf(valid, source) != [] || Spoilt(valid, source) }

  ghost predicate SameSource(d: Files, e: Files, slug: string) {
    && (Active(slug) in d <==> Active(slug) in e)
    && (Active(slug) in d ==> e[Active(slug)] == d[Active(slug)])
  }

  /** Nothing of the dataset has been published or quarantined yet. */
  ghost predicate Waiting(d: Files, e: Files, slug: string) {
    SameSource(d, e, slug) && NewFinals(d, e, slug) == {} && NewQuarantines(d, e, slug) == {}
  }

  /** The records are in one new final, and the stranded file is still there. */
  ghost predicate Published(valid: Json, d: Files, e: Files, slug: string) {
    && SameSource(d, e, slug) && Active(slug) in d && RecordsOf(valid, d[Active(slug)]) != []
    && OneCopy(NewFinals(d, e, slug), e, Rescue(valid, d[Active(slug)]))
    && NewQuarantines(d, e, slug) == {}
  }

  /** The stranded file is gone: its records, if any, are in one new final, and a spoilt file is in
      one new quarantine, byte for byte. */
  ghost predicate Disposed(valid: Json, d: Files, e: Files, slug: string) {
    && Active(slug) in d && Active(slug) !in e && Stranded(valid, d[Active(slug)])
    && (if RecordsOf(valid, d[Active(slug)]) == [] then NewFinals(d, e, slug) == {}
        else OneCopy(NewFinals(d, e, slug), e, Rescue(valid, d[Active(slug)])))
    && (if Spoilt(valid, d[Active(slug)]) then OneCopy(NewQuarantines(d, e, slug), e, d[Active(slug)])
        else NewQuarantines(d, e, slug) == {})
  }

  /** Every final and quarantine of `d` is in `e`, byte for byte. */
  ghost predicate Retains(d: Files, e: Files) {
    forall n :: n in d && (n.Final? || n.Quarantine?) ==> n in e && e[n] == d[n]
  }

  ghost predicate Classified(valid: Json, d: Files, e: Files, slug: string) {
    Waiting(d, e, slug) || Published(valid, d, e, slug) || Disposed(valid, d, e, slug)
  }

  ghost predicate AtRest(valid: Json, d: Files, e: Files, slug: string) {
    Waiting(d, e, slug) || Disposed(valid, d, e, slug)
  }

  /** `e` is a directory recovery passes through on its way from `d`. */
  ghost predicate Passed(valid: Json, d: Files, e: Files) {
    Retains(d, e) && forall slug :: Classified(valid, d, e, slug)
  }

  /** Recovery from `d` has come to `e`, and is between two stranded files. */
  ghost predicate Settled(valid: Json, d: Files, e: Files) {
    Retains(d, e) && forall slug :: AtRest(valid, d, e, slug)
  }

  /** No stranded file with anything in it is left. */
  ghost predicate NothingStranded(valid: Json, d: Files) {
    forall slug :: Active(slug) in d ==> !Stranded(valid, d[Active(slug)])
  }

  lemma SettledPassed(valid: Json, d: Files, e: Files)
    requires Settled(valid, d, e)
    ensures Passed(valid, d, e)
  {
    forall slug ensures Classified(valid, d, e, slug) { assert AtRest(valid, d, e, slug); }
  }

  /** A new final holds the rescued records of the stranded file of its dataset, and nothing else does. */
  lemma {:induction false} NewFinalIsRescue(valid: Json, d: Files, e: Files, n: Name)
    requires Passed(valid, d, e) && n in e && n.Final? && n !in d && e[n] != []
    ensures Active(n.slug) in d && RecordsOf(valid, d[Active(n.slug)]) != []
    ensures e[n] == Rescue(valid, d[Active(n.slug)]) && DocsOf(e[n]) == RecordsOf(valid, d[Active(n.slug)])
    ensures AtFloor(e[n])
  {
    assert Classified(valid, d, e, n.slug);
    assert n in NewFinals(d, e, n.slug);
    StagedRecords(valid, d[Active(n.slug)]);
  }

  lemma {:induction false} PassedKeepsFloor(valid: Json, d: Files, e: Files)
    requires Passed(valid, d, e) && Floor(d)
    ensures Floor(e)
  {
    forall n | n in e && n.Final? ensures e[n] == [] || AtFloor(e[n]) {
      if n !in d && e[n] != [] { NewFinalIsRescue(valid, d, e, n); }
    }
  }

  // ---- One process after another ----

  /** The new finals of two stretches are those of the first, which stay, and those of the second. */
  lemma {:induction false} NewFinalsAdd(d: Files, m: Files, e: Files, slug: string)
    requires Retains(d, m) && Retains(m, e)
    ensures NewFinals(d, e, slug) == NewFinals(d, m, slug) + NewFinals(m, e, slug)
    ensures NewFinals(d, m, slug) !! NewFinals(m, e, slug)
    ensures NewQuarantines(d, e, slug) == NewQuarantines(d, m, slug) + NewQuarantines(m, e, slug)
    ensures NewQuarantines(d, m, slug) !! NewQuarantines(m, e, slug)
  {
  }

  /** Going on from a settled directory. */
  lemma {:induction false} PassedOnward(valid: Json, d: Files, m: Files, e: Files, slug: string)
    requires Retains(d, m) && AtRest(valid, d, m, slug) && Retains(m, e)
    ensures Classified(valid, m, e, slug) ==> Classified(valid, d, e, slug)
    ensures AtRest(valid, m, e, slug) ==> AtRest(valid, d, e, slug)
  {
    NewFinalsAdd(d, m, e, slug);
  }

  lemma {:induction false} PassedFrom(valid: Json, d: Files, m: Files, e: Files)
    requires Settled(valid, d, m)
    ensures Passed(valid, m, e) ==> Passed(valid, d, e)
    ensures Settled(valid, m, e) ==> Settled(valid, d, e)
  {
    if Retains(m, e) {
      forall slug
        ensures Classified(valid, m, e, slug) ==> Classified(valid, d, e, slug)
        ensures AtRest(valid, m, e, slug) ==> AtRest(valid, d, e, slug)
      {
        assert AtRest(valid, d, m, slug);
        PassedOnward(valid, d, m, e, slug);
      }
    }
  }

  // ---- A chain of starts ----

  /** Each start leaves some directory it passes through to the next one. */
  ghost predicate Chain(valid: Json, dirs: seq<Files>) {
    dirs != [] && forall i :: 0 <= i < |dirs| - 1 ==> Passed(valid, dirs[i], dirs[i + 1])
  }

  /** How many of the starts ended, by a crash or a refused disposal, between publication and disposal. */
  ghost function Interruptions(valid: Json, dirs: seq<Files>, slug: string): nat {
    if |dirs| < 2 then 0
    else Interruptions(valid, dirs[..|dirs| - 1], slug)
         + if Published(valid, dirs[|dirs| - 2], dirs[|dirs| - 1], slug) then 1 else 0
  }

  ghost predicate Taken(d: Files, e: Files, slug: string) { Active(slug) in d && Active(slug) !in e }

  /** The new finals of a dataset: one for each interruption, and one when its file is gone, all with the
      rescued records. */
  ghost predicate FinalsAccounted(valid: Json, d: Files, e: Files, slug: string, interruptions: nat) {
    var owed := Active(slug) in d && RecordsOf(valid, d[Active(slug)]) != [];
    && |NewFinals(d, e, slug)| == interruptions + (if Taken(d, e, slug) && owed then 1 else 0)
    && (NewFinals(d, e, slug) != {} ==> owed)
    && (forall n :: n in NewFinals(d, e, slug) ==> e[n] == Rescue(valid, d[Active(slug)]))
  }

  ghost predicate QuarantineAccounted(valid: Json, d: Files, e: Files, slug: string) {
    if Taken(d, e, slug) && Spoilt(valid, d[Active(slug)]) then OneCopy(NewQuarantines(d, e, slug), e, d[Active(slug)])
    else NewQuarantines(d, e, slug) == {}
  }

  /** What a chain of starts from `d` to `e`, `interruptions` of them interrupted, has made of one dataset. */
  ghost predicate Accounted(valid: Json, d: Files, e: Files, slug: string, interruptions: nat) {
    && (if Taken(d, e, slug) then Stranded(valid, d[Active(slug)]) else SameSource(d, e, slug))
    && FinalsAccounted(valid, d, e, slug, interruptions) && QuarantineAccounted(valid, d, e, slug)
  }

  lemma NewFinalsStay(d: Files, m: Files, e: Files, slug: string)
    requires Retains(m, e)
    ensures forall n :: n in NewFinals(d, m, slug) ==> n in e && e[n] == m[n]
  {
  }

  lemma {:induction false} FinalsStep(valid: Json, d: Files, m: Files, e: Files, slug: string, interruptions: nat)
    requires Retains(d, m) && FinalsAccounted(valid, d, m, slug, interruptions)
    requires Taken(d, m, slug) || SameSource(d, m, slug)
    requires Retains(m, e) && Classified(valid, m, e, slug)
    ensures FinalsAccounted(valid, d, e, slug, interruptions + if Published(valid, m, e, slug) then 1 else 0)
  {
    hide RecordsOf;
    hide Spoilt;
    hide Rescue;
    hide NewQuarantines;
    hide NewFinals;
    hide Retains;
    NewFinalsAdd(d, m, e, slug);
    NewFinalsStay(d, m, e, slug);
    if Published(valid, m, e, slug) || (Disposed(valid, m, e, slug) && RecordsOf(valid, m[Active(slug)]) != []) {
      assert |NewFinals(m, e, slug)| == 1;
    } else {
      assert NewFinals(m, e, slug) == {};
    }
  }

  lemma {:induction false} QuarantineStep(valid: Json, d: Files, m: Files, e: Files, slug: string)
    requires Retains(d, m) && QuarantineAccounted(valid, d, m, slug)
    requires Taken(d, m, slug) || SameSource(d, m, slug)
    requires Retains(m, e) && Classified(valid, m, e, slug)
    ensures QuarantineAccounted(valid, d, e, slug)
  {
    hide RecordsOf;
    hide Spoilt;
    hide Rescue;
    hide NewFinals;
    NewFinalsAdd(d, m, e, slug);
  }

  /** One more start. */
  lemma {:induction false} AccountedStep(valid: Json, d: Files, m: Files, e: Files, slug: string, interruptions: nat)
    requires Retains(d, m) && Accounted(valid, d, m, slug, interruptions)
    requires Retains(m, e) && Classified(valid, m, e, slug)
    ensures Accounted(valid, d, e, slug, interruptions + if Published(valid, m, e, slug) then 1 else 0)
  {
    hide FinalsAccounted;
    hide QuarantineAccounted;
    hide OneCopy;
    hide NewFinals;
    hide NewQuarantines;
    FinalsStep(valid, d, m, e, slug, interruptions);
    QuarantineStep(valid, d, m, e, slug);
  }

  lemma {:induction false} ChainAccounted(valid: Json, dirs: seq<Files>, slug: string)
    requires Chain(valid, dirs)
    ensures Retains(dirs[0], dirs[|dirs| - 1])
    ensures Accounted(valid, dirs[0], dirs[|dirs| - 1], slug, Interruptions(valid, dirs, slug))
    decreases |dirs|
  {
    if |dirs| > 1 {
      var init := dirs[..|dirs| - 1];
      ChainAccounted(valid, init, slug);
      assert Classified(valid, dirs[|dirs| - 2], dirs[|dirs| - 1], slug);
      AccountedStep(valid, dirs[0], dirs[|dirs| - 2], dirs[|dirs| - 1], slug, Interruptions(valid, init, slug));
    }
  }

  /** Over any number of starts, the records of a stranded file that is gone have exactly one final if
      and only if no start ended between publishing them and disposing of the file. */
  lemma {:induction false} ExactlyOneFinal(valid: Json, dirs: seq<Files>, slug: string)
    requires Chain(valid, dirs) && Active(slug) in dirs[0] && Active(slug) !in dirs[|dirs| - 1]
    requires RecordsOf(valid, dirs[0][Active(slug)]) != []
    ensures var d, e := dirs[0], dirs[|dirs| - 1];
      && (forall n :: n in NewFinals(d, e, slug) ==> DocsOf(e[n]) == RecordsOf(valid, d[Active(slug)]))
      && |NewFinals(d, e, slug)| == 1 + Interruptions(valid, dirs, slug)
      && (|NewFinals(d, e, slug)| == 1
          <==> forall i :: 0 <= i < |dirs| - 1 ==> !Published(valid, dirs[i], dirs[i + 1], slug))
  {
    ChainAccounted(valid, dirs, slug);
    StagedRecords(valid, dirs[0][Active(slug)]);
    InterruptionsZero(valid, dirs, slug);
  }

  lemma {:induction false} InterruptionsZero(valid: Json, dirs: seq<Files>, slug: string)
    ensures Interruptions(valid, dirs, slug) == 0
       <==> forall i :: 0 <= i < |dirs| - 1 ==> !Published(valid, dirs[i], dirs[i + 1], slug)
    decreases |dirs|
  {
    if |dirs| > 1 {
      var init := dirs[..|dirs| - 1];
      InterruptionsZero(valid, init, slug);
      assert forall i :: 0 <= i < |init| ==> init[i] == dirs[i];
    }
  }

  // ---- Nothing is lost ----

  /** Everything recovery owes the stranded file `source` is in `e`: its records in a final, and, when
      it was spoilt, the file itself, byte for byte, in quarantine. */
  ghost predicate Rescued(valid: Json, slug: string, source: bytes, e: Files) {
    && (RecordsOf(valid, source) != [] ==> HasFinal(slug, RecordsOf(valid, source), e))
    && (Spoilt(valid, source) ==> HasQuarantine(slug, source, e))
  }

  ghost predicate HasFinal(slug: string, records: seq<bytes>, e: Files) {
    exists n :: n in e && n.Final? && n.slug == slug && DocsOf(e[n]) == records
  }

  ghost predicate HasQuarantine(slug: string, source: bytes, e: Files) {
    exists n :: n in e && n.Quarantine? && n.slug == slug && e[n] == source
  }

  /** From `d` to `e` nothing is lost: finals and quarantines stay, and each stranded file is either
      still there untouched or gone with everything it held rescued. */
  ghost predicate Keeps(valid: Json, d: Files, e: Files) {
    && Retains(d, e)
    && (forall slug :: Active(slug) in e ==> Active(slug) in d && e[Active(slug)] == d[Active(slug)])
    && (forall slug :: Active(slug) in d && Active(slug) !in e ==> Rescued(valid, slug, d[Active(slug)], e))
  }

  lemma {:induction false} AccountedRescues(valid: Json, d: Files, e: Files, slug: string, interruptions: nat)
    requires Accounted(valid, d, e, slug, interruptions) && Active(slug) in d && Active(slug) !in e
    ensures Rescued(valid, slug, d[Active(slug)], e)
  {
    if RecordsOf(valid, d[Active(slug)]) != [] {
      StagedRecords(valid, d[Active(slug)]);
      assert NewFinals(d, e, slug) != {} by { assert |NewFinals(d, e, slug)| > 0; }
      var n :| n in NewFinals(d, e, slug);
      assert DocsOf(e[n]) == RecordsOf(valid, d[Active(slug)]);
    }
  }

  /** However many starts there are, and wherever each of them stops, nothing is lost. */
  lemma {:induction false} ChainKeeps(valid: Json, dirs: seq<Files>)
    requires Chain(valid, dirs)
    ensures Keeps(valid, dirs[0], dirs[|dirs| - 1])
  {
    var d, e := dirs[0], dirs[|dirs| - 1];
    ChainAccounted(valid, dirs, "");
    forall slug
      ensures Active(slug) in e ==> Active(slug) in d && e[Active(slug)] == d[Active(slug)]
      ensures Active(slug) in d && Active(slug) !in e ==> Rescued(valid, slug, d[Active(slug)], e)
    {
      ChainAccounted(valid, dirs, slug);
      if Active(slug) in d && Active(slug) !in e {
        AccountedRescues(valid, d, e, slug, Interruptions(valid, dirs, slug));
      }
    }
  }
}
