/** Ownership of resolved index templates: a path-sensitive order on JSON trees. */
module Dominance {
  import opened Wrappers
  import opened Decimals

  /** A JSON value as Python holds it; numbers by their value, and no NaN. */
  datatype Value =
    | Null
    | Bool(flag: bool)
    | Num(number: real)
    | Str(text: string)
    | List(items: seq<Value>)
    | Dict(members: map<string, Value>)

  type Path = seq<string>

  const MANAGED_BY: Path := ["mappings", "_meta", "managed_by"]
  const DIMENSIONS: Path := ["settings", "index", "dimensions"]
  const DYNAMIC_TEMPLATES: Path := ["mappings", "dynamic_templates"]

  predicate Scalar(v: Value) { !v.List? && !v.Dict? }

  /** Python counts `True` as 1 and `False` as 0 when it compares or hashes them. */
  function Canon(v: Value): Value {
    if v.Bool? then Num(if v.flag then 1.0 else 0.0) else v
  }

  predicate Hashable(items: seq<Value>) { forall i :: 0 <= i < |items| ==> Scalar(items[i]) }

  function ScalarSet(items: seq<Value>): set<Value> { set i | 0 <= i < |items| :: Canon(items[i]) }

  // ---- Named lists ----

  predicate Named1(v: Value) { v.Dict? && |v.members| == 1 }

  lemma OneKey(m: map<string, Value>, k: string)
    requires |m| == 1 && k in m
    ensures m.Keys == {k}
  {
    assert |m.Keys - {k}| == 0;
    assert m.Keys == {k} + (m.Keys - {k});
  }

  function NameOf(v: Value): (name: string)
    requires Named1(v)
    ensures name in v.members && v.members.Keys == {name}
  {
    assert exists k :: k in v.members && v.members.Keys == {k} by {
      assert v.members != map[];
      var k :| k in v.members;
      OneKey(v.members, k);
    }
    var k :| k in v.members && v.members.Keys == {k};
    k
  }

  /** The entries of a list of one-member objects by name, unless one is malformed or a name repeats. */
  function Named(items: seq<Value>): (r: Option<map<string, Value>>)
    ensures r.Some? <==> WellNamed(items)
    ensures r.Some? ==> Entries(items, r.value)
  {
    hide WellNamed;
    hide Entries;
    hide NameOf;
    NoneNamed();
    if items == [] then Some(map[])
    else
      var front, last := items[..|items| - 1], items[|items| - 1];
      var rest := Named(front);
      assert items == front + [last];
      OneMoreNamed(front, last, rest);
      if rest.None? || !Named1(last) || NameOf(last) in rest.value then None
      else Some(rest.value[NameOf(last) := last.members[NameOf(last)]])
  }

  /** Each entry is found under its name, and there is no other name. */
  ghost predicate Entries(items: seq<Value>, named: map<string, Value>)
    requires WellNamed(items)
  {
    && (forall i :: 0 <= i < |items| ==>
          NameOf(items[i]) in named && named[NameOf(items[i])] == items[i].members[NameOf(items[i])])
    && (forall name :: name in named ==> exists i :: 0 <= i < |items| && NameOf(items[i]) == name)
  }

  lemma NoneNamed()
    ensures WellNamed([]) && Entries([], map[])
  {
  }

  lemma OneMoreNamed(front: seq<Value>, last: Value, rest: Option<map<string, Value>>)
    requires rest.Some? <==> WellNamed(front)
    requires rest.Some? ==> Entries(front, rest.value)
    ensures if rest.None? || !Named1(last) || NameOf(last) in rest.value then !WellNamed(front + [last])
            else WellNamed(front + [last])
                 && Entries(front + [last], rest.value[NameOf(last) := last.members[NameOf(last)]])
  {
    hide NameOf;
    var items := front + [last];
    assert items[|front|] == last;
    assert forall i :: 0 <= i < |front| ==> items[i] == front[i];
    if WellNamed(items) {
      assert forall i :: 0 <= i < |front| ==> front[i] == items[i];
      assert WellNamed(front);
    }
  }

  /** One-member objects, each with a name of its own. */
  predicate WellNamed(items: seq<Value>) {
    && (forall i :: 0 <= i < |items| ==> Named1(items[i]))
    && (forall i, j :: 0 <= i < j < |items| ==> NameOf(items[i]) != NameOf(items[j]))
  }

  /** What the next item does to the names so far. */
  lemma NextNamed(items: seq<Value>, n: nat)
    requires n < |items|
    ensures var last, rest, more := items[n], Named(items[..n]), Named(items[..n + 1]);
      if rest.None? || !Named1(last) || NameOf(last) in rest.value then Named(items).None?
      else more == Some(rest.value[NameOf(last) := last.members[NameOf(last)]])
  {
    hide NameOf;
    hide Entries;
    assert items[..n + 1][..n] == items[..n];
    if WellNamed(items) { PrefixIsWellNamed(items, n + 1); }
  }

  lemma PrefixIsWellNamed(items: seq<Value>, n: nat)
    requires n <= |items| && WellNamed(items)
    ensures WellNamed(items[..n])
  {
    hide NameOf;
  }

  method NamedLoop(items: seq<Value>) returns (r: Option<map<string, Value>>)
    ensures r == Named(items)
  {
    hide NameOf;
    hide Entries;
    hide WellNamed;
    var result: map<string, Value> := map[];
    var n := 0;
    while n < |items|
      invariant 0 <= n <= |items| && Named(items[..n]) == Some(result)
    {
      var item := items[n];
      NextNamed(items, n);
      if !item.Dict? || |item.members| != 1 { return None; }
      var name :| name in item.members;
      OneKey(item.members, name);
      if name in result { return None; }
      result := result[name := item.members[name]];
      n := n + 1;
    }
    assert items[..n] == items;
    r := Some(result);
  }

  // ---- Dominance ----

  /** Every path the expected value declares survives in the live one. */
  predicate Dominates(expected: Value, live: Value, path: Path)
    decreases expected
  {
    if path == MANAGED_BY then true
    else if expected.Dict? then
      && live.Dict?
      && forall key :: key in expected.members ==>
           key in live.members && Dominates(expected.members[key], live.members[key], path + [key])
    else if expected.List? then
      && live.List?
      && if path == DIMENSIONS then
           Hashable(expected.items) && Hashable(live.items) && ScalarSet(expected.items) == ScalarSet(live.items)
         else if path == DYNAMIC_TEMPLATES then
           && WellNamed(expected.items) && Named(live.items).Some?
           && forall i :: 0 <= i < |expected.items| ==>
                var name := NameOf(expected.items[i]);
                && name in Named(live.items).value
                && Dominates(expected.items[i].members[name], Named(live.items).value[name], path + [name])
         else
           && |expected.items| == |live.items|
           && forall i :: 0 <= i < |expected.items| ==>
                Dominates(expected.items[i], live.items[i], path + [Shown(i)])
    else Scalar(live) && Canon(expected) == Canon(live)
  }

  lemma {:induction false} DominanceIsTransitive(a: Value, b: Value, c: Value, path: Path)
    requires Dominates(a, b, path) && Dominates(b, c, path)
    ensures Dominates(a, c, path)
    decreases a
  {
    if path != MANAGED_BY {
      if a.Dict? {
        forall key | key in a.members ensures Dominates(a.members[key], c.members[key], path + [key]) {
          DominanceIsTransitive(a.members[key], b.members[key], c.members[key], path + [key]);
        }
      } else if a.List? && path == DYNAMIC_TEMPLATES {
        NamedIsTransitive(a, b, c);
      } else if a.List? && path != DIMENSIONS {
        forall i | 0 <= i < |a.items| ensures Dominates(a.items[i], c.items[i], path + [Shown(i)]) {
          DominanceIsTransitive(a.items[i], b.items[i], c.items[i], path + [Shown(i)]);
        }
      }
    }
  }

  lemma {:induction false} NamedIsTransitive(a: Value, b: Value, c: Value)
    requires a.List? && Dominates(a, b, DYNAMIC_TEMPLATES) && Dominates(b, c, DYNAMIC_TEMPLATES)
    ensures Dominates(a, c, DYNAMIC_TEMPLATES)
    decreases a, 0
  {
    var path, theirs, last := DYNAMIC_TEMPLATES, Named(b.items).value, Named(c.items).value;
    forall i | 0 <= i < |a.items|
      ensures var name := NameOf(a.items[i]);
        name in last && Dominates(a.items[i].members[name], last[name], path + [name])
    {
      var name := NameOf(a.items[i]);
      var j :| 0 <= j < |b.items| && NameOf(b.items[j]) == name;
      assert theirs[name] == b.items[j].members[name];
      DominanceIsTransitive(a.items[i].members[name], theirs[name], last[name], path + [name]);
    }
  }

  // ---- Reflexivity ----

  function Lookup(v: Value, path: Path): Option<Value> {
    if path == [] then Some(v)
    else if v.Dict? && path[0] in v.members then Lookup(v.members[path[0]], path[1..])
    else None
  }

  /** What `v`, standing at `path`, holds at the dimensions' path is no list or a list of scalars. */
  ghost predicate DimensionsOk(v: Value, path: Path) {
    path <= DIMENSIONS ==>
      var d := Lookup(v, DIMENSIONS[|path|..]);
      d.Some? && d.value.List? ==> Hashable(d.value.items)
  }

  /** What `v`, standing at `path`, holds at the dynamic templates' path is no list or a well named one. */
  ghost predicate TemplatesOk(v: Value, path: Path) {
    path <= DYNAMIC_TEMPLATES ==>
      var t := Lookup(v, DYNAMIC_TEMPLATES[|path|..]);
      t.Some? && t.value.List? ==> WellNamed(t.value.items)
  }

  lemma StepOk(v: Value, path: Path)
    requires v.Dict? && path != DIMENSIONS && path != DYNAMIC_TEMPLATES
    ensures DimensionsOk(v, path) && TemplatesOk(v, path)
       <==> forall key :: key in v.members ==>
              DimensionsOk(v.members[key], path + [key]) && TemplatesOk(v.members[key], path + [key])
  {
  }

  lemma BelowIndexOk(v: Value, path: Path, i: nat)
    ensures DimensionsOk(v, path + [Shown(i)]) && TemplatesOk(v, path + [Shown(i)])
  {
    var below := path + [Shown(i)];
    assert below[|path|] == Shown(i);
    assert forall k :: 0 <= k < |DIMENSIONS| ==> !('0' <= DIMENSIONS[k][0] <= '9');
    assert forall k :: 0 <= k < |DYNAMIC_TEMPLATES| ==> !('0' <= DYNAMIC_TEMPLATES[k][0] <= '9');
  }

  lemma BelowTemplatesOk(v: Value, name: string)
    ensures DimensionsOk(v, DYNAMIC_TEMPLATES + [name]) && TemplatesOk(v, DYNAMIC_TEMPLATES + [name])
  {
    assert (DYNAMIC_TEMPLATES + [name])[0] == "mappings" && DIMENSIONS[0] == "settings";
  }

  /** A value at any path is dominated by itself exactly when its dimensions and dynamic templates are well formed. */
  lemma {:induction false} ReflexiveExactly(v: Value, path: Path)
    ensures Dominates(v, v, path) <==> DimensionsOk(v, path) && TemplatesOk(v, path)
    decreases v
  {
    if path == MANAGED_BY {
      assert DIMENSIONS[0] != MANAGED_BY[0];
    } else if v.Dict? && path != DIMENSIONS && path != DYNAMIC_TEMPLATES {
      StepOk(v, path);
      forall key | key in v.members
        ensures Dominates(v.members[key], v.members[key], path + [key])
           <==> DimensionsOk(v.members[key], path + [key]) && TemplatesOk(v.members[key], path + [key])
      {
        ReflexiveExactly(v.members[key], path + [key]);
      }
    } else if v.Dict? {
      forall key | key in v.members ensures Dominates(v.members[key], v.members[key], path + [key]) {
        ReflexiveExactly(v.members[key], path + [key]);
        if path == DYNAMIC_TEMPLATES { BelowTemplatesOk(v.members[key], key); }
      }
      assert path[|path|..] == [] && Lookup(v, []) == Some(v);
      assert DIMENSIONS[0] != DYNAMIC_TEMPLATES[0];
    } else if v.List? && path == DYNAMIC_TEMPLATES {
      TemplatesReflexive(v);
    } else if v.List? && path != DIMENSIONS {
      forall i | 0 <= i < |v.items| ensures Dominates(v.items[i], v.items[i], path + [Shown(i)]) {
        ReflexiveExactly(v.items[i], path + [Shown(i)]);
        BelowIndexOk(v.items[i], path, i);
      }
    }
  }

  lemma {:induction false} TemplatesReflexive(v: Value)
    requires v.List?
    ensures Dominates(v, v, DYNAMIC_TEMPLATES) <==> WellNamed(v.items)
    decreases v, 0
  {
    if WellNamed(v.items) {
      forall i | 0 <= i < |v.items|
        ensures var name := NameOf(v.items[i]);
          && name in Named(v.items).value
          && Dominates(v.items[i].members[name], Named(v.items).value[name], DYNAMIC_TEMPLATES + [name])
      {
        var name := NameOf(v.items[i]);
        ReflexiveExactly(v.items[i].members[name], DYNAMIC_TEMPLATES + [name]);
        BelowTemplatesOk(v.items[i].members[name], name);
      }
    }
  }

  // ---- What dominance gives ----

  /** Whatever the expected value declares at a path, the live one has there and dominates it. */
  lemma {:induction false} DeclarationsSurvive(expected: Value, live: Value, path: Path, q: Path)
    requires Dominates(expected, live, path) && Lookup(expected, q).Some? && !(MANAGED_BY <= path + q)
    ensures Lookup(live, q).Some? && Dominates(Lookup(expected, q).value, Lookup(live, q).value, path + q)
    decreases q
  {
    if q == [] {
      assert path + q == path;
    } else {
      assert path + q == path + [q[0]] + q[1..];
      assert path != MANAGED_BY by { assert path <= path + q; }
      DeclarationsSurvive(expected.members[q[0]], live.members[q[0]], path + [q[0]], q[1..]);
    }
  }

  /** The value with a new member at the end of a path through objects, if there is room for it. */
  function Added(v: Value, at: Path, key: string, member: Value): Value
    decreases at
  {
    if !v.Dict? then v
    else if at == [] then if key in v.members then v else Dict(v.members[key := member])
    else if at[0] in v.members then Dict(v.members[at[0] := Added(v.members[at[0]], at[1..], key, member)])
    else v
  }

  /** A member added anywhere to a dominating live object keeps it dominating. */
  lemma {:induction false} AdditionKeepsDominance(
    expected: Value, live: Value, path: Path, at: Path, key: string, member: Value)
    requires Dominates(expected, live, path)
    ensures Dominates(expected, Added(live, at, key, member), path)
    decreases at
  {
    if path != MANAGED_BY && live.Dict? && at != [] && at[0] in live.members && at[0] in expected.members {
      AdditionKeepsDominance(expected.members[at[0]], live.members[at[0]], path + [at[0]], at[1..], key, member);
    }
  }

  /** Lists whose entries are found under the same names serve the expected ones alike. */
  lemma {:induction false} MoreNamesDominate(expected: Value, live: seq<Value>, more: seq<Value>)
    requires expected.List? && Dominates(expected, List(live), DYNAMIC_TEMPLATES) && WellNamed(more)
    requires forall i :: 0 <= i < |live| ==> live[i] in more
    ensures Dominates(expected, List(more), DYNAMIC_TEMPLATES)
  {
  }

  /** A dynamic template inserted at any position under a new name keeps the list dominating. */
  lemma {:induction false} InsertionKeepsDominance(expected: Value, live: seq<Value>, n: nat, name: string, body: Value)
    requires expected.List? && Dominates(expected, List(live), DYNAMIC_TEMPLATES)
    requires n <= |live| && name !in Named(live).value
    ensures Dominates(expected, List(live[..n] + [Dict(map[name := body])] + live[n..]), DYNAMIC_TEMPLATES)
  {
    hide Dominates;
    var entry := Dict(map[name := body]);
    var more := live[..n] + [entry] + live[n..];
    assert Named(live).Some? by { DynamicTemplatesAreNamed(expected, live); }
    OneKey(entry.members, name);
    forall i | 0 <= i < |live| ensures live[i] in more && NameOf(live[i]) != name {
      assert live[i] == more[if i < n then i else i + 1];
    }
    assert WellNamed(more) by { InsertedIsWellNamed(live, n, entry); }
    MoreNamesDominate(expected, live, more);
  }

  lemma DynamicTemplatesAreNamed(expected: Value, live: seq<Value>)
    requires expected.List? && Dominates(expected, List(live), DYNAMIC_TEMPLATES)
    ensures WellNamed(expected.items) && WellNamed(live)
  {
  }

  lemma InsertedIsWellNamed(items: seq<Value>, n: nat, entry: Value)
    requires WellNamed(items) && n <= |items| && Named1(entry)
    requires forall i :: 0 <= i < |items| ==> NameOf(items[i]) != NameOf(entry)
    ensures WellNamed(items[..n] + [entry] + items[n..])
  {
  }

  // ---- Simulation outcomes ----

  /** The generated settings, as paths; the server writes them nested or joined by dots. */
  const DERIVED: set<Path> := {
    ["index", "provided_name"], ["index", "uuid"], ["index", "creation_date"], ["index", "creation_date_string"],
    ["index", "time_series", "start_time"], ["index", "time_series", "end_time"] }

  function Dotted(parts: Path): string {
    if parts == [] then "" else if |parts| == 1 then parts[0] else parts[0] + "." + Dotted(parts[1..])
  }

  /** Removes one nested setting, if objects lead to it. */
  function Pop(v: Value, parts: Path): Value
    requires parts != []
    decreases parts
  {
    if !v.Dict? then v
    else if |parts| == 1 then Dict(v.members - {parts[0]})
    else if parts[0] in v.members then Dict(v.members[parts[0] := Pop(v.members[parts[0]], parts[1..])])
    else v
  }

  /** The paths of `ks` below key `k`. */
  ghost function Tails(ks: set<Path>, k: string): set<Path> {
    set p | p in ks && |p| > 1 && p[0] == k :: p[1..]
  }

  /** Removes every nested setting of `ks` at once. */
  ghost function Without(v: Value, ks: set<Path>): Value {
    if v.Dict? then Dict(map k | k in v.members && [k] !in ks :: Without(v.members[k], Tails(ks, k))) else v
  }

  /** The settings without the generated ones, in either spelling. */
  ghost function Stripped(settings: Value): Value
    requires settings.Dict?
  {
    Without(Dict(Undotted(settings.members, DERIVED)), DERIVED)
  }

  ghost function Undotted(m: map<string, Value>, ks: set<Path>): map<string, Value> {
    map k | k in m && (forall p :: p in ks ==> k != Dotted(p)) :: m[k]
  }

  lemma {:induction false} WithoutNothing(v: Value)
    ensures Without(v, {}) == v
    decreases v
  {
    if v.Dict? {
      forall k | k in v.members ensures Without(v.members[k], Tails({}, k)) == v.members[k] {
        WithoutNothing(v.members[k]);
        assert Tails({}, k) == {};
      }
    }
  }

  lemma TailsGrow(ks: set<Path>, parts: Path, k: string)
    requires parts != []
    ensures Tails(ks + {parts}, k) == if |parts| > 1 && parts[0] == k then Tails(ks, k) + {parts[1..]} else Tails(ks, k)
  {
  }

  /** Popping one more path is removing one more: the order of the pops does not matter. */
  lemma {:induction false} PopWithout(v: Value, ks: set<Path>, parts: Path)
    requires parts != []
    ensures Pop(Without(v, ks), parts) == Without(v, ks + {parts})
    decreases v
  {
    hide Tails;
    if v.Dict? {
      var more := ks + {parts};
      forall k | k in v.members
        ensures Without(v.members[k], Tails(more, k))
             == if |parts| > 1 && parts[0] == k then Pop(Without(v.members[k], Tails(ks, k)), parts[1..])
                else Without(v.members[k], Tails(ks, k))
      {
        TailsGrow(ks, parts, k);
        if |parts| > 1 && parts[0] == k { PopWithout(v.members[k], Tails(ks, k), parts[1..]); }
      }
      forall k ensures [k] in more <==> [k] in ks || (|parts| == 1 && k == parts[0]) {
        if |parts| == 1 { assert parts == [parts[0]]; }
      }
      assert Pop(Without(v, ks), parts).members == Without(v, more).members;
    }
  }

  lemma NothingStripped(settings: Value)
    requires settings.Dict?
    ensures Without(Dict(Undotted(settings.members, {})), {}) == settings
  {
    assert Undotted(settings.members, {}) == settings.members;
    WithoutNothing(settings);
  }

  /** Removing a dotted name commutes with removing nested ones. */
  lemma {:induction false} UndottedStep(settings: Value, done: set<Path>, parts: Path)
    requires settings.Dict? && parts != []
    ensures var flat, next := Dict(Undotted(settings.members, done)), Dict(Undotted(settings.members, done + {parts}));
      && Without(flat, done).Dict? && Without(next, done + {parts}).Dict?
      && Pop(Dict(Without(flat, done).members - {Dotted(parts)}), parts) == Without(next, done + {parts})
  {
    var flat, next := Dict(Undotted(settings.members, done)), Dict(Undotted(settings.members, done + {parts}));
    assert next.members == flat.members - {Dotted(parts)};
    assert Without(flat, done).members - {Dotted(parts)} == Without(next, done).members;
    PopWithout(next, done, parts);
  }

  method SimulationSettings(settings: Value) returns (r: Option<Value>)
    ensures r == if settings.Dict? then Some(Stripped(settings)) else None
  {
    hide Without;
    hide Undotted;
    hide Dotted;
    hide Pop;
    if !settings.Dict? { return None; }
    var value := settings;
    var left := DERIVED;
    ghost var done: set<Path> := {};
    assert Without(Dict(Undotted(settings.members, {})), {}) == settings by { NothingStripped(settings); }
    while left != {}
      invariant left <= DERIVED && done == DERIVED - left
      invariant value.Dict? && value == Without(Dict(Undotted(settings.members, done)), done)
      decreases left
    {
      var parts :| parts in left;
      UndottedStep(settings, done, parts);
      value := Dict(value.members - {Dotted(parts)});
      value := Pop(value, parts);
      left := left - {parts};
      done := done + {parts};
    }
    assert done == DERIVED;
    r := Some(value);
  }

  /** A path is generated when it extends a generated setting, nested or dotted. */
  ghost predicate Generated(path: Path, ks: set<Path>) {
    exists n :: 0 < n <= |path| && path[..n] in ks
  }

  /** Below a removed path there is nothing; every other path is kept, with what it holds stripped in turn. */
  lemma {:induction false} WithoutAt(v: Value, ks: set<Path>, path: Path)
    ensures Lookup(Without(v, ks), path)
         == if Generated(path, ks) || Lookup(v, path).None? then None
            else Some(Without(Lookup(v, path).value, Below(ks, path)))
    decreases path
  {
    if path == [] {
      assert Below(ks, path) == ks;
    } else {
      var k, rest := path[0], path[1..];
      assert Generated(path, ks) <==> [k] in ks || Generated(rest, Tails(ks, k)) by { GeneratedStep(path, ks); }
      if v.Dict? && k in v.members { WithoutAt(v.members[k], Tails(ks, k), rest); }
    }
  }

  ghost function Below(ks: set<Path>, path: Path): set<Path>
    decreases path
  {
    if path == [] then ks else Below(Tails(ks, path[0]), path[1..])
  }

  lemma GeneratedStep(path: Path, ks: set<Path>)
    requires path != []
    ensures Generated(path, ks) <==> [path[0]] in ks || Generated(path[1..], Tails(ks, path[0]))
  {
    var k, rest := path[0], path[1..];
    if Generated(path, ks) {
      var n :| 0 < n <= |path| && path[..n] in ks;
      if n == 1 { assert path[..1] == [k]; } else { assert path[..n][1..] == rest[..n - 1]; }
    }
    if [k] in ks { assert path[..1] == [k]; }
    if Generated(rest, Tails(ks, k)) {
      var n :| 0 < n <= |rest| && rest[..n] in Tails(ks, k);
      var q :| q in ks && |q| > 1 && q[0] == k && rest[..n] == q[1..];
      assert q == [k] + q[1..] == path[..n + 1];
    }
  }

  /** The resolved mappings, settings and aliases of a simulation, or nothing when a part is malformed. */
  ghost function Outcome(value: Value): Option<Value> {
    if !value.Dict? then None
    else
      var template := Get(value, "template", value);
      if !template.Dict? then None
      else
        var mappings, aliases := Get(template, "mappings", Dict(map[])), Get(template, "aliases", Dict(map[]));
        var settings := Get(template, "settings", Dict(map[]));
        if !settings.Dict? || !mappings.Dict? || !aliases.Dict? then None
        else Some(Dict(map["mappings" := mappings, "settings" := Stripped(settings), "aliases" := aliases]))
  }

  function Get(v: Value, key: string, default: Value): Value
    requires v.Dict?
  {
    if key in v.members then v.members[key] else default
  }

  method SimulationOutcome(value: Value) returns (r: Option<Value>)
    ensures r == Outcome(value)
  {
    if !value.Dict? { return None; }
    var template := Get(value, "template", value);
    if !template.Dict? { return None; }
    var mappings := Get(template, "mappings", Dict(map[]));
    var aliases := Get(template, "aliases", Dict(map[]));
    var settings := SimulationSettings(Get(template, "settings", Dict(map[])));
    if settings.None? || !mappings.Dict? || !aliases.Dict? { return None; }
    r := Some(Dict(map["mappings" := mappings, "settings" := settings.value, "aliases" := aliases]));
  }

  /** The dominance of two outcomes; nothing when either is malformed. */
  method SimulationOutcomeDominates(expected: Value, live: Value) returns (r: Option<bool>)
    ensures r == if Outcome(expected).None? || Outcome(live).None? then None
                 else Some(Dominates(Outcome(expected).value, Outcome(live).value, []))
  {
    var e := SimulationOutcome(expected);
    if e.None? { return None; }
    var l := SimulationOutcome(live);
    if l.None? { return None; }
    r := Some(Dominates(e.value, l.value, []));
  }

  /** Outcomes are compared by a preorder, once their dimensions and dynamic templates are well formed. */
  lemma OutcomesAreOrdered(a: Value, b: Value, c: Value)
    requires Outcome(a).Some? && Outcome(b).Some? && Outcome(c).Some?
    ensures var x, y, z := Outcome(a).value, Outcome(b).value, Outcome(c).value;
      && (Dominates(x, x, []) <==> DimensionsOk(x, []) && TemplatesOk(x, []))
      && (Dominates(x, y, []) && Dominates(y, z, []) ==> Dominates(x, z, []))
  {
    var x, y, z := Outcome(a).value, Outcome(b).value, Outcome(c).value;
    ReflexiveExactly(x, []);
    if Dominates(x, y, []) && Dominates(y, z, []) { DominanceIsTransitive(x, y, z, []); }
  }
}
