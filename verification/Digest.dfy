/** The canonical digest preimage of the accepted schema versions: one frame for each set of versions. */
module Digest {
  import opened Wrappers
  import opened Bytes
  import opened Decimals

  const MAX_VERSIONS: nat := 256
  const U32: nat := 0x1_0000_0000
  const DIAGNOSIS_SCHEMA_VERSION: nat := 1
  /** The domain tag, ending in a zero byte. */
  const DOMAIN: bytes := Ascii("rigsignal:w1:accepted-schema-versions:digest:v1") + [0]

  function Ascii(s: string): (b: bytes)
    ensures |b| == |s|
  {
    seq(|s|, i requires 0 <= i < |s| => (s[i] as int % 256) as byte)
  }

  // ---- Versions ----

  predicate ValidVersion(v: bytes) {
    v != [] && |v| <= 10 && Digits(v) && v[0] != 48 && Number(v) < U32
  }

  function Pow10(k: nat): nat { if k == 0 then 1 else 10 * Pow10(k - 1) }

  lemma {:induction false} DecimalIsShort(n: nat, k: nat)
    requires k > 0 && n < Pow10(k)
    ensures |Decimal(n)| <= k
  {
    if n >= 10 { DecimalIsShort(n / 10, k - 1); }
  }

  lemma {:induction false} DecimalOfNumber(v: bytes)
    requires v != [] && Digits(v) && v[0] != 48
    ensures v == Decimal(Number(v)) && Number(v) > 0
  {
    if |v| > 1 {
      var rest := v[..|v| - 1];
      DecimalOfNumber(rest);
      assert v == rest + [v[|v| - 1]];
    } else {
      assert v[..0] == [] && v == [v[0]];
    }
  }

  /** The valid versions are the decimal forms of the numbers from 1 up to the largest `u32`, each once. */
  lemma {:induction false} VersionsAreNumbers(v: bytes)
    ensures ValidVersion(v) <==> exists n: nat :: 0 < n < U32 && v == Decimal(n)
    ensures ValidVersion(v) ==> forall n: nat :: v == Decimal(n) ==> n == Number(v)
  {
    if ValidVersion(v) { DecimalOfNumber(v); }
    forall n: nat | v == Decimal(n) ensures n == Number(v) && (0 < n < U32 ==> ValidVersion(v)) {
      NumberOfDecimal(n);
      if n < U32 {
        assert Pow10(10) == 10000000000 by { assert Pow10(5) == 100000; }
        DecimalIsShort(n, 10);
      }
    }
  }

  // ---- Order ----

  /** Byte order: the first difference decides, and a prefix comes first. */
  predicate Before(x: bytes, y: bytes) {
    if y == [] then false
    else if x == [] then true
    else if x[0] != y[0] then x[0] < y[0]
    else Before(x[1..], y[1..])
  }

  lemma {:induction false} BeforeIsTotal(x: bytes, y: bytes)
    ensures x == y || Before(x, y) || Before(y, x)
    ensures !(Before(x, y) && Before(y, x)) && !Before(x, x)
  {
    if x != [] && y != [] {
      BeforeIsTotal(x[1..], y[1..]);
      assert x == [x[0]] + x[1..] && y == [y[0]] + y[1..];
    }
    if x != [] { BeforeIsTotal(x[1..], x[1..]); }
  }

  lemma {:induction false} BeforeIsTransitive(x: bytes, y: bytes, z: bytes)
    requires Before(x, y) && Before(y, z)
    ensures Before(x, z)
  {
    if x != [] && x[0] == y[0] == z[0] { BeforeIsTransitive(x[1..], y[1..], z[1..]); }
  }

  ghost predicate Sorted(s: seq<bytes>) {
    forall i, j :: 0 <= i < j < |s| ==> !Before(s[j], s[i])
  }

  ghost predicate StrictlySorted(s: seq<bytes>) {
    forall i, j :: 0 <= i < j < |s| ==> Before(s[i], s[j])
  }

  /** The library's sort, known by what it returns. */
  function Insert(x: bytes, s: seq<bytes>): seq<bytes> {
    if s == [] || !Before(s[0], x) then [x] + s else [s[0]] + Insert(x, s[1..])
  }

  function Sort(s: seq<bytes>): seq<bytes> {
    if s == [] then [] else Insert(s[0], Sort(s[1..]))
  }

  lemma {:induction false} InsertSorts(x: bytes, s: seq<bytes>)
    requires Sorted(s)
    ensures Sorted(Insert(x, s)) && multiset(Insert(x, s)) == multiset(s) + multiset{x}
  {
    var r := Insert(x, s);
    if s == [] || !Before(s[0], x) {
      forall i, j | 0 <= i < j < |r| ensures !Before(r[j], r[i]) {
        if i == 0 && j > 1 && Before(s[j - 1], x) {
          BeforeIsTotal(s[0], x);
          if s[0] != x {
            BeforeIsTransitive(s[j - 1], x, s[0]);
            assert false;
          }
        }
      }
    } else {
      var rest := Insert(x, s[1..]);
      InsertSorts(x, s[1..]);
      assert s == [s[0]] + s[1..];
      forall j | 0 <= j < |rest| ensures !Before(rest[j], s[0]) {
        assert rest[j] in multiset(rest);
        BeforeIsTotal(s[0], x);
        if rest[j] != x {
          assert rest[j] in s[1..];
          var k :| 0 <= k < |s[1..]| && s[1..][k] == rest[j];
          assert s[k + 1] == rest[j];
        }
      }
    }
  }

  lemma {:induction false} SortSorts(s: seq<bytes>)
    ensures Sorted(Sort(s)) && multiset(Sort(s)) == multiset(s)
  {
    if s != [] {
      SortSorts(s[1..]);
      InsertSorts(s[0], Sort(s[1..]));
      assert s == [s[0]] + s[1..];
    }
  }

  /** Drops each entry equal to the one before it. */
  function Dedup(s: seq<bytes>): seq<bytes> {
    if |s| < 2 then s else if s[0] == s[1] then Dedup(s[1..]) else [s[0]] + Dedup(s[1..])
  }

  lemma {:induction false} DedupStrictens(s: seq<bytes>)
    requires Sorted(s)
    ensures StrictlySorted(Dedup(s)) && (forall x :: x in Dedup(s) <==> x in s) && |Dedup(s)| <= |s|
    ensures s != [] ==> Dedup(s) != [] && Dedup(s)[0] == s[0]
  {
    if |s| >= 2 {
      var rest := Dedup(s[1..]);
      DedupStrictens(s[1..]);
      assert s == [s[0]] + s[1..];
      if s[0] != s[1] {
        BeforeIsTotal(s[0], s[1]);
        forall j | 0 < j < |rest| ensures Before(s[0], rest[j]) {
          BeforeIsTransitive(s[0], rest[0], rest[j]);
        }
      }
    }
  }

  function Canonical(values: seq<bytes>): seq<bytes> { Dedup(Sort(values)) }

  /** The canonical form lists every value once, in byte order. */
  lemma {:induction false} CanonicalLists(values: seq<bytes>)
    ensures StrictlySorted(Canonical(values)) && |Canonical(values)| <= |values|
    ensures forall x :: x in Canonical(values) <==> x in values
  {
    SortSorts(values);
    DedupStrictens(Sort(values));
    assert |Sort(values)| == |values| by { assert |multiset(Sort(values))| == |multiset(values)|; }
    forall x ensures x in Canonical(values) <==> x in values {
      assert x in Sort(values) <==> x in multiset(Sort(values));
    }
  }

  /** A strictly sorted list is determined by what it holds. */
  lemma {:induction false} SortedIsTheSet(s: seq<bytes>, t: seq<bytes>)
    requires StrictlySorted(s) && StrictlySorted(t) && (forall x :: x in s <==> x in t)
    ensures s == t
  {
    assert t != [] ==> t[0] in s;
    if s != [] {
      assert s[0] in t;
      var i :| 0 <= i < |t| && t[i] == s[0];
      var j :| 0 <= j < |s| && s[j] == t[0];
      BeforeIsTotal(s[0], t[0]);
      assert s[0] == t[0];
      forall x ensures x in s[1..] <==> x in t[1..] { HeadIsFirst(s, x); HeadIsFirst(t, x); }
      SortedIsTheSet(s[1..], t[1..]);
      assert s == [s[0]] + s[1..] && t == [t[0]] + t[1..];
    }
  }

  lemma HeadIsFirst(s: seq<bytes>, x: bytes)
    requires s != [] && StrictlySorted(s)
    ensures x in s[1..] <==> x in s && x != s[0]
  {
    BeforeIsTotal(s[0], s[0]);
    assert s == [s[0]] + s[1..];
    if x in s[1..] {
      var k :| 0 <= k < |s[1..]| && s[1..][k] == x;
      assert s[k + 1] == x;
    }
  }

  // ---- The frame ----

  /** `width` bytes of `n`, most significant first. */
  function BigEndian(n: nat, width: nat): (word: bytes)
    ensures |word| == width
  {
    if width == 0 then [] else BigEndian(n / 256, width - 1) + [(n % 256) as byte]
  }

  lemma {:induction false} BigEndianInjective(m: nat, n: nat, width: nat)
    requires m < Pow256(width) && n < Pow256(width) && BigEndian(m, width) == BigEndian(n, width)
    ensures m == n
  {
    if width > 0 {
      var a, b := BigEndian(m, width), BigEndian(n, width);
      assert a[..width - 1] == BigEndian(m / 256, width - 1) && b[..width - 1] == BigEndian(n / 256, width - 1);
      assert a[width - 1] as int == m % 256 && b[width - 1] as int == n % 256;
      BigEndianInjective(m / 256, n / 256, width - 1);
    }
  }

  function Word32(n: nat): (word: bytes)
    ensures |word| == 4
  {
    BigEndian(n % U32, 4)
  }

  lemma Word32Injective(m: nat, n: nat)
    requires m < U32 && n < U32 && Word32(m) == Word32(n)
    ensures m == n
  {
    hide BigEndian;
    assert Pow256(4) == U32 by { assert Pow256(2) == 0x1_0000; }
    assert m % U32 == m && n % U32 == n;
    BigEndianInjective(m, n, 4);
  }

  function FrameEntries(entries: seq<bytes>): bytes {
    if entries == [] then [] else FrameEntries(entries[..|entries| - 1]) + FrameEntry(entries[|entries| - 1])
  }

  function FrameEntry(entry: bytes): bytes { Word32(|entry|) + entry }

  function Frame(entries: seq<bytes>): bytes { DOMAIN + Word32(|entries|) + FrameEntries(entries) }

  /** The buffer `digest_entries` hashes. */
  method FrameOf(entries: seq<bytes>) returns (frame: bytes)
    ensures frame == Frame(entries)
  {
    hide Word32;
    frame := DOMAIN;
    frame := frame + Word32(|entries|);
    var i := 0;
    while i < |entries|
      invariant 0 <= i <= |entries| && frame == DOMAIN + Word32(|entries|) + FrameEntries(entries[..i])
    {
      frame := frame + Word32(|entries[i]|);
      frame := frame + entries[i];
      i := i + 1;
      assert entries[..i][..i - 1] == entries[..i - 1];
    }
    assert entries[..i] == entries;
  }

  lemma {:induction false} FrameEntriesHead(entries: seq<bytes>)
    requires entries != []
    ensures FrameEntries(entries) == FrameEntry(entries[0]) + FrameEntries(entries[1..])
  {
    var n := |entries|;
    if n > 1 {
      FrameEntriesHead(entries[..n - 1]);
      assert entries[..n - 1][1..] == entries[1..][..n - 2];
    } else {
      assert entries[..0] == [] && entries[1..] == [];
    }
  }

  /** The length before each entry keeps two lists of equal length apart. */
  lemma {:induction false} FrameEntriesInjective(s: seq<bytes>, t: seq<bytes>)
    requires |s| == |t| && (forall i :: 0 <= i < |s| ==> |s[i]| < U32 && |t[i]| < U32)
    requires FrameEntries(s) == FrameEntries(t)
    ensures s == t
  {
    if s != [] {
      FrameEntriesHead(s);
      FrameEntriesHead(t);
      var a, b := FrameEntries(s), FrameEntries(t);
      assert a[..4] == Word32(|s[0]|) && b[..4] == Word32(|t[0]|);
      Word32Injective(|s[0]|, |t[0]|);
      var n := |s[0]|;
      assert a[4..4 + n] == s[0] && b[4..4 + n] == t[0];
      assert a[4 + n..] == FrameEntries(s[1..]) && b[4 + n..] == FrameEntries(t[1..]);
      FrameEntriesInjective(s[1..], t[1..]);
      assert s == [s[0]] + s[1..] && t == [t[0]] + t[1..];
    }
  }

  /** The frame determines its list. */
  lemma {:induction false} FrameInjective(s: seq<bytes>, t: seq<bytes>)
    requires |s| < U32 && |t| < U32
    requires (forall x :: x in s ==> |x| < U32) && (forall x :: x in t ==> |x| < U32)
    requires Frame(s) == Frame(t)
    ensures s == t
  {
    var d := |DOMAIN|;
    assert Frame(s)[d..d + 4] == Word32(|s|) && Frame(t)[d..d + 4] == Word32(|t|);
    Word32Injective(|s|, |t|);
    assert Frame(s)[d + 4..] == FrameEntries(s) && Frame(t)[d + 4..] == FrameEntries(t);
    FrameEntriesInjective(s, t);
  }

  // ---- The accepted set ----

  ghost predicate Acceptable(values: seq<bytes>) {
    0 < |values| <= MAX_VERSIONS && forall v :: v in values ==> ValidVersion(v)
  }

  /** The preimage of the digest, and whether the agent's own version is among the accepted ones. */
  method AcceptedSet(values: seq<bytes>) returns (r: Option<(bytes, bool)>)
    ensures r.Some? <==> Acceptable(values)
    ensures r.Some? ==> r.value.0 == Frame(Canonical(values))
    ensures r.Some? ==> (r.value.1 <==> Decimal(DIAGNOSIS_SCHEMA_VERSION) in values)
  {
    if |values| == 0 || |values| > MAX_VERSIONS { return None; }
    var i := 0;
    while i < |values|
      invariant 0 <= i <= |values| && forall k :: 0 <= k < i ==> ValidVersion(values[k])
    {
      if !ValidVersion(values[i]) { return None; }
      i := i + 1;
    }
    CanonicalLists(values);
    var entries := Canonical(values);
    var frame := FrameOf(entries);
    var own := Decimal(DIAGNOSIS_SCHEMA_VERSION) in entries;
    r := Some((frame, own));
  }

  /** Two accepted lists have one preimage exactly when they name the same versions. */
  lemma {:induction false} PreimageIsTheSet(xs: seq<bytes>, ys: seq<bytes>)
    requires Acceptable(xs) && Acceptable(ys)
    ensures Frame(Canonical(xs)) == Frame(Canonical(ys)) <==> (forall v :: v in xs <==> v in ys)
  {
    CanonicalLists(xs);
    CanonicalLists(ys);
    if Frame(Canonical(xs)) == Frame(Canonical(ys)) {
      FrameInjective(Canonical(xs), Canonical(ys));
    }
    if forall v :: v in xs <==> v in ys {
      SortedIsTheSet(Canonical(xs), Canonical(ys));
    }
  }
}
