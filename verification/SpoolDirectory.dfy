/** The spool directory, its operations, and the reservation that publishes a file under a fresh name. */
module SpoolDirectory {
  import opened Bytes
  import opened SpoolText

  const U32_MAX: nat := 0xFFFF_FFFF

  /** The files the spool knows, by the role their name gives them. */
  datatype Name =
    | Active(slug: string)
    | Final(slug: string, millis: nat, number: nat)
    | Quarantine(slug: string, millis: nat, number: nat)
    | Staging(slug: string, millis: nat, number: nat)

  datatype Extension = Ndjson | Spoiled

  type Files = map<Name, bytes>

  function Target(slug: string, millis: nat, number: nat, extension: Extension): Name {
    if extension.Ndjson? then Final(slug, millis, number) else Quarantine(slug, millis, number)
  }

  function SaturatingNext(n: nat): nat { if n < U32_MAX then n + 1 else U32_MAX }

  datatype Made = Created | AlreadyExists | Failed

  /** A reservation can also never come back: once the number is saturated and taken, the search
      asks for the same name for ever. */
  datatype Reservation = Reserved(name: Name) | Refused | Spinning

  /** Every published final a reader may pick up is an empty reservation or at the floor. */
  ghost predicate Floor(d: Files) {
    forall n :: n in d && n.Final? ==> d[n] == [] || AtFloor(d[n])
  }

  /** `e` is `d`, perhaps with one more empty file: a reservation nobody used. */
  ghost predicate Reserving(d: Files, e: Files) {
    e == d || exists n :: n !in d && !n.Active? && !n.Staging? && e == d[n := []]
  }

  class Directory {
    var files: Files
    var nextSeq: nat

    /** History: the directory after every single operation on it. A crash leaves one of these. */
    var past: seq<Files>

    ghost predicate Valid()
      reads this
    {
      nextSeq <= U32_MAX && past != [] && past[|past| - 1] == files
    }

    constructor (files: Files)
      ensures Valid() && this.files == files && nextSeq == 1 && past == [files]
    {
      this.files := files;
      nextSeq := 1;
      past := [files];
    }

    /** Opens a name that must not exist yet. */
    method CreateNew(name: Name) returns (made: Made)
      requires Valid()
      modifies this`files, this`past
      ensures Valid()
      ensures made.AlreadyExists? ==> name in old(files)
      ensures made.Created? ==> name !in old(files) && files == old(files)[name := []] && past == old(past) + [files]
      ensures !made.Created? ==> files == old(files) && past == old(past)
    {
      if name in files { return AlreadyExists; }
      var refused: bool := *;
      if refused { return Failed; }
      files := files[name := []];
      past := past + [files];
      return Created;
    }

    /** Writes the content of a file that is open. */
    method Store(name: Name, content: bytes)
      requires Valid()
      modifies this`files, this`past
      ensures Valid() && files == old(files)[name := content] && past == old(past) + [files]
    {
      files := files[name := content];
      past := past + [files];
    }

    /** Writes a file several times over; `steps` are its contents after each write. */
    method Rewrite(name: Name, steps: seq<bytes>)
      requires Valid() && name in files
      modifies this`files, this`past
      ensures Valid()
      ensures files == if steps == [] then old(files) else old(files)[name := steps[|steps| - 1]]
      ensures |past| == |old(past)| + |steps| && old(past) <= past
      ensures forall i :: 0 <= i < |steps| ==> past[|old(past)| + i] == old(files)[name := steps[i]]
    {
      for i := 0 to |steps|
        invariant Valid() && files == if i == 0 then old(files) else old(files)[name := steps[i - 1]]
        invariant |past| == |old(past)| + i && old(past) <= past
        invariant forall k :: 0 <= k < i ==> past[|old(past)| + k] == old(files)[name := steps[k]]
      {
        Store(name, steps[i]);
      }
    }

    method Rename(source: Name, target: Name) returns (ok: bool)
      requires Valid() && source != target
      modifies this`files, this`past
      ensures Valid()
      ensures ok ==> source in old(files) && files == (old(files) - {source})[target := old(files)[source]]
                     && past == old(past) + [files]
      ensures !ok ==> files == old(files) && past == old(past)
    {
      var refused: bool := *;
      if refused || source !in files { return false; }
      files := (files - {source})[target := files[source]];
      past := past + [files];
      return true;
    }

    method RemoveIfExists(name: Name) returns (ok: bool)
      requires Valid()
      modifies this`files, this`past
      ensures Valid()
      ensures files == (if ok then old(files) - {name} else old(files))
      ensures past == old(past) || past == old(past) + [files]
    {
      if name !in files {
        assert files - {name} == files;
        return true;
      }
      var refused: bool := *;
      if refused { return false; }
      files := files - {name};
      past := past + [files];
      return true;
    }

    /** Takes the first free publication name at or above the counter. It never touches an existing
        file, and it spins only when no number is left. */
    method Reserve(slug: string, millis: nat, extension: Extension) returns (r: Reservation)
      requires Valid()
      modifies this
      ensures Valid()
      ensures r.Reserved? ==>
        && r.name == Target(slug, millis, nextSeq, extension) && old(nextSeq) <= nextSeq
        && r.name !in old(files) && files == old(files)[r.name := []] && past == old(past) + [files]
        && (forall k :: old(nextSeq) <= k < nextSeq ==> Target(slug, millis, k, extension) in old(files))
      ensures old(nextSeq) <= nextSeq
      ensures !r.Reserved? ==> files == old(files) && past == old(past)
      ensures r.Spinning? ==>
        forall k :: old(nextSeq) <= k <= U32_MAX ==> Target(slug, millis, k, extension) in old(files)
    {
      while true
        invariant Valid() && old(nextSeq) <= nextSeq && files == old(files) && past == old(past)
        invariant forall k :: old(nextSeq) <= k < nextSeq ==> Target(slug, millis, k, extension) in files
        decreases U32_MAX - nextSeq
      {
        var target := Target(slug, millis, nextSeq, extension);
        var made := CreateNew(target);
        match made {
          case Created => return Reserved(target);
          case Failed => return Refused;
          case AlreadyExists =>
            if nextSeq == U32_MAX { return Spinning; }
            nextSeq := SaturatingNext(nextSeq);
        }
      }
    }

    /** Publishes a closed file: reserve a name, rename over the reservation. */
    method Publish(source: Name, slug: string, millis: nat) returns (r: Reservation)
      requires Valid() && !source.Final?
      modifies this
      ensures Valid() && old(past) <= past
      ensures r.Reserved? ==>
        && r.name.Final? && r.name.slug == slug && r.name !in old(files) && source in old(files)
        && files == (old(files) - {source})[r.name := old(files)[source]]
        && past == old(past) + [old(files)[r.name := []], files]
        && old(nextSeq) <= r.name.number <= U32_MAX && nextSeq == SaturatingNext(r.name.number)
      ensures !r.Reserved? ==> Reserving(old(files), files) && old(nextSeq) <= nextSeq
      ensures !r.Reserved? ==> forall k :: |old(past)| <= k < |past| ==> Reserving(old(files), past[k])
      ensures r.Spinning? ==>
        forall k :: old(nextSeq) <= k <= U32_MAX ==> Target(slug, millis, k, Ndjson) in old(files)
    {
      r := Reserve(slug, millis, Ndjson);
      if r.Reserved? {
        var target := r.name;
        var ok := Rename(source, target);
        if ok {
          nextSeq := SaturatingNext(nextSeq);
        } else {
          var removed := RemoveIfExists(target);
          assert old(files)[target := []] - {target} == old(files);
          r := Refused;
        }
      }
    }
  }
}
