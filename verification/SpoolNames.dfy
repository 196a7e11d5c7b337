/** The text of spool file names: what the directory model may take for granted about them. */
module SpoolNames {
  import opened Wrappers
  import opened Decimals
  import opened SpoolDirectory

  const PREFIX: string := "rigsignal-"
  const ACTIVE: string := ".ndjson.tmp"
  const STAGING: string := ".staging"
  const QUARANTINE: string := ".quarantine"

  function Numbered(slug: string, millis: nat, number: nat): string {
    slug + ("-" + Shown(millis)) + ("-" + Shown(number))
  }

  function Text(n: Name): string {
    match n
    case Active(slug) => PREFIX + slug + ACTIVE
    case Final(slug, millis, number) => PREFIX + Numbered(slug, millis, number) + ".ndjson"
    case Quarantine(slug, millis, number) => PREFIX + Numbered(slug, millis, number) + QUARANTINE
    case Staging(slug, millis, number) => "." + PREFIX + Numbered(slug, millis, number) + ".ndjson" + STAGING
  }

  predicate StartsWith(s: string, prefix: string) { |prefix| <= |s| && s[..|prefix|] == prefix }

  predicate EndsWith(s: string, suffix: string) { |suffix| <= |s| && s[|s| - |suffix|..] == suffix }

  function StripPrefix(s: string, prefix: string): Option<string> {
    if StartsWith(s, prefix) then Some(s[|prefix|..]) else None
  }

  function StripSuffix(s: string, suffix: string): Option<string> {
    if EndsWith(s, suffix) then Some(s[..|s| - |suffix|]) else None
  }

  /** The dataset of an active file a run left behind. */
  function StrandedSlug(name: string): Option<string> {
    var rest := StripPrefix(name, PREFIX);
    if rest.None? then None else StripSuffix(rest.value, ACTIVE)
  }

  predicate IsStagingFile(name: string) { EndsWith(name, STAGING) }

  predicate IsRetainedQuarantine(name: string) { StartsWith(name, PREFIX) && EndsWith(name, QUARANTINE) }

  lemma LastChars(x: string, suffix: string)
    requires suffix != ""
    ensures EndsWith(x + suffix, suffix) && (x + suffix)[..|x|] == x
    ensures (x + suffix)[|x + suffix| - 1] == suffix[|suffix| - 1]
  {
  }

  /** Startup recovery recognises exactly the active files, and reads their dataset off the name. */
  lemma {:induction false} RolesAreReadOff(n: Name)
    ensures StrandedSlug(Text(n)) == if n.Active? then Some(n.slug) else None
    ensures IsStagingFile(Text(n)) <==> n.Staging?
    ensures IsRetainedQuarantine(Text(n)) <==> n.Quarantine?
  {
    var t := Text(n);
    match n {
      case Active(slug) =>
        LastChars(PREFIX + slug, ACTIVE);
        assert t[..|PREFIX|] == PREFIX && t[|PREFIX|..] == slug + ACTIVE;
        LastChars(slug, ACTIVE);
      case Final(slug, millis, number) =>
        LastChars(PREFIX + Numbered(slug, millis, number), ".ndjson");
      case Quarantine(slug, millis, number) =>
        LastChars(PREFIX + Numbered(slug, millis, number), QUARANTINE);
        assert t[..|PREFIX|] == PREFIX;
      case Staging(slug, millis, number) =>
        LastChars("." + PREFIX + Numbered(slug, millis, number) + ".ndjson", STAGING);
        assert t[0] == '.';
    }
  }

  /** Text up to the last dash is determined when what follows it has no dash. */
  lemma LastDash(x: string, d: string, y: string, e: string)
    requires x + ("-" + d) == y + ("-" + e) && '-' !in d && '-' !in e
    ensures x == y && d == e
  {
    var s, t := x + ("-" + d), y + ("-" + e);
    assert s[|x|] == '-' && t[|y|] == '-';
    assert forall k :: |x| < k < |s| ==> s[k] == d[k - |x| - 1];
    assert forall k :: |y| < k < |t| ==> t[k] == e[k - |y| - 1];
    assert |x| == |y|;
    assert s[..|x|] == x && t[..|y|] == y;
    assert s[|x| + 1..] == d && t[|y| + 1..] == e;
  }

  lemma NumberedInjective(s: string, m: nat, i: nat, t: string, n: nat, j: nat)
    requires Numbered(s, m, i) == Numbered(t, n, j)
    ensures s == t && m == n && i == j
  {
    LastDash(s + ("-" + Shown(m)), Shown(i), t + ("-" + Shown(n)), Shown(j));
    LastDash(s, Shown(m), t, Shown(n));
    ShownInjective(m, n);
    ShownInjective(i, j);
  }

  lemma SameMiddle(p: string, x: string, y: string, q: string)
    requires p + x + q == p + y + q
    ensures x == y
  {
    var s, t := p + x + q, p + y + q;
    assert s[|p|..|s| - |q|] == x && t[|p|..|t| - |q|] == y;
  }

  /** Different files have different names, whatever the slugs are. */
  lemma {:induction false} NamesAreDistinct(a: Name, b: Name)
    requires Text(a) == Text(b)
    ensures a == b
  {
    RolesAreReadOff(a);
    RolesAreReadOff(b);
    match a {
      case Active(slug) =>
      case Final(slug, millis, number) =>
        SameMiddle(PREFIX, Numbered(slug, millis, number), Numbered(b.slug, b.millis, b.number), ".ndjson");
        NumberedInjective(slug, millis, number, b.slug, b.millis, b.number);
      case Quarantine(slug, millis, number) =>
        SameMiddle(PREFIX, Numbered(slug, millis, number), Numbered(b.slug, b.millis, b.number), QUARANTINE);
        NumberedInjective(slug, millis, number, b.slug, b.millis, b.number);
      case Staging(slug, millis, number) =>
        var x, y := Numbered(slug, millis, number), Numbered(b.slug, b.millis, b.number);
        assert Text(a) == ("." + PREFIX) + x + (".ndjson" + STAGING);
        assert Text(b) == ("." + PREFIX) + y + (".ndjson" + STAGING);
        SameMiddle("." + PREFIX, x, y, ".ndjson" + STAGING);
        NumberedInjective(slug, millis, number, b.slug, b.millis, b.number);
    }
  }
}
