/**
 An entry as the installer updates it in place: the row that links it to its record, and the record's
 values. `Existing` is the comparison of one release with it, field by field, and is tied to `Merge`.
 */
module CatalogueInstall {
  import opened CatalogueMerge
  import opened CatalogueValues
  import opened Wrappers

  datatype Release = Release(collection: string, version: string, checksum: string,
                             transferredFrom: Option<string>, stated: map<string, Said>)

  function Lookup<T>(m: map<string, T>, name: string): Option<T> {
    if name in m then Some(m[name]) else None
  }

  /** What the comparison has worked out so far; nothing of it is stored before the end. */
  datatype Draft = Draft(managed: set<string>, conflicts: map<string, Conflict>, corrections: map<string, Value>,
                         writes: map<string, Value>)

  class Entry {
    const adopted: bool
    var collection: string
    var version: string
    var checksum: string
    var stated: map<string, Said>
    var managed: set<string>
    var conflicts: map<string, Conflict>
    var corrections: map<string, Value>
    var record: map<string, Value>

    constructor (c: Release, adopted: bool, managed: set<string>, corrections: map<string, Value>,
                 record: map<string, Value>)
      requires managed <= c.stated.Keys
      ensures this.adopted == adopted && collection == c.collection && stated == c.stated
      ensures this.managed == managed && conflicts == map[] && this.corrections == corrections
      ensures this.record == record && Valid()
    {
      this.adopted := adopted;
      collection, version, checksum := c.collection, c.version, c.checksum;
      stated, this.managed, conflicts, this.corrections := c.stated, managed, map[], corrections;
      this.record := record;
    }

    ghost predicate Valid()
      reads this
    {
      managed <= stated.Keys
    }

    function Current(name: string): Value
      reads this
    {
      if name in record then record[name] else Null
    }

    /** Everything the entry and its record keep about one field. */
    function FieldOf(name: string): Field
      reads this
    {
      Field(Lookup(stated, name), name in managed, Lookup(conflicts, name), Lookup(corrections, name), Current(name))
    }

    /** The field as a draft has it, were the release's statement stored with it. */
    function Drafted(c: Release, d: Draft, name: string): Field
      reads this
    {
      Field(Lookup(c.stated, name), name in d.managed, Lookup(d.conflicts, name), Lookup(d.corrections, name),
            if name in d.writes then d.writes[name] else Current(name))
    }

    /** The field as it still is in a draft that has not reached it. */
    predicate Untouched(d: Draft, name: string)
      reads this
    {
      && (name in d.managed <==> name in managed)
      && Lookup(d.conflicts, name) == Lookup(conflicts, name)
      && Lookup(d.corrections, name) == Lookup(corrections, name)
      && name !in d.writes
    }

    predicate Alike(d: Draft, e: Draft, name: string) {
      && (name in d.managed <==> name in e.managed)
      && Lookup(d.conflicts, name) == Lookup(e.conflicts, name)
      && Lookup(d.corrections, name) == Lookup(e.corrections, name)
      && Lookup(d.writes, name) == Lookup(e.writes, name)
    }

    /** The field as a draft has it, before the release's statement is stored. */
    function Held(d: Draft, name: string): Field
      reads this
    {
      Field(Lookup(stated, name), name in d.managed, Lookup(d.conflicts, name), Lookup(d.corrections, name),
            if name in d.writes then d.writes[name] else Current(name))
    }

    function Conflicting(c: Release, d: Draft, name: string): Draft
      requires name in c.stated
      reads this
    {
      d.(conflicts := d.conflicts[name := Conflict(c.stated[name], Current(name), c.version)])
    }

    /** What the release says about a field that is managed. */
    method CompareManaged(c: Release, d: Draft, name: string) returns (e: Draft)
      requires name in c.stated && name !in d.writes && name in d.managed
      ensures Held(e, name) == Weigh(adopted, Held(d, name), c.stated[name], c.version)
      ensures name in e.writes <==> Current(name) != Held(e, name).value
      ensures forall other :: other != name ==> Alike(d, e, other)
    {
      var cur, said := Current(name), c.stated[name];
      if Same(cur, said) {
        e := d.(conflicts := d.conflicts - {name});
      } else if Same(cur, if name in stated then stated[name] else Null) {
        e := d.(writes := d.writes[name := said], conflicts := d.conflicts - {name});
      } else {
        e := Conflicting(c, d, name);
      }
    }

    /** What the release says about a field that is not: nothing, a write, or a conflict. */
    method CompareStated(c: Release, d: Draft, name: string) returns (e: Draft)
      requires name in c.stated && name !in d.writes
      ensures Held(e, name) == Weigh(adopted, Held(d, name), c.stated[name], c.version)
      ensures name in e.writes <==> Current(name) != Held(e, name).value
      ensures forall other :: other != name ==> Alike(d, e, other)
    {
      var cur, said := Current(name), c.stated[name];
      e := d;
      if name in d.managed {
        e := CompareManaged(c, d, name);
      } else if name !in stated {
        if !adopted || Blank(cur) || Same(cur, said) {
          e := e.(managed := e.managed + {name});
          if !Same(cur, said) {
            e := e.(writes := e.writes[name := said]);
          }
        } else {
          e := Conflicting(c, d, name);
        }
      } else if !Same(stated[name], said) && !Same(cur, said) {
        e := Conflicting(c, d, name);
      }
    }

    /** One field of the comparison. */
    method Compare(c: Release, d: Draft, name: string) returns (e: Draft)
      requires name in c.stated || name in stated
      requires Untouched(d, name)
      ensures Drafted(c, e, name) == Merge(adopted, FieldOf(name), Lookup(c.stated, name), c.version)
      ensures name in e.writes <==> Current(name) != Drafted(c, e, name).value
      ensures forall other :: other != name ==> Alike(d, e, other)
    {
      e := d;
      if name !in c.stated {
        e := e.(managed := e.managed - {name});
        return;
      }
      if name in e.corrections && Same(e.corrections[name], c.stated[name]) {
        e := e.(corrections := e.corrections - {name}, managed := e.managed + {name});
      }
      ghost var closed := e;
      e := CompareStated(c, e, name);
      forall other | other != name ensures Alike(d, e, other) {
        assert Alike(closed, e, other);
      }
    }

    /** Every field either side states. */
    method CompareAll(c: Release) returns (d: Draft)
      requires Valid()
      ensures forall name :: Drafted(c, d, name) == Merge(adopted, FieldOf(name), Lookup(c.stated, name), c.version)
      ensures forall name :: name in d.writes <==> Current(name) != Drafted(c, d, name).value
    {
      d := Draft(managed, conflicts, corrections, map[]);
      var names := c.stated.Keys + stated.Keys;
      while names != {}
        invariant names <= c.stated.Keys + stated.Keys
        invariant forall name :: name in names ==> Untouched(d, name)
        invariant forall name :: name !in names ==>
                    && Drafted(c, d, name) == Merge(adopted, FieldOf(name), Lookup(c.stated, name), c.version)
                    && (name in d.writes <==> Current(name) != Drafted(c, d, name).value)
        decreases names
      {
        var name :| name in names;
        ghost var before := d;
        d := Compare(c, d, name);
        names := names - {name};
        forall other | other != name
          ensures Drafted(c, d, other) == Drafted(c, before, other)
          ensures Untouched(before, other) ==> Untouched(d, other)
          ensures other in d.writes <==> other in before.writes
        {
          assert Alike(before, d, other);
        }
      }
    }

    /** One release on an entry that has a record. Refused, with nothing changed, when another collection
        holds the entry and the release does not say it came from there. Otherwise every field is merged,
        and `written` names the fields of the record that changed. */
    method Existing(c: Release) returns (written: Option<set<string>>)
      requires Valid()
      modifies this
      ensures Valid()
      ensures written.None? <==> old(collection) != c.collection && c.transferredFrom != Some(old(collection))
      ensures written.None? ==> unchanged(this)
      ensures written.Some? ==>
                && collection == c.collection && version == c.version && checksum == c.checksum
                && stated == c.stated
                && (forall name :: FieldOf(name)
                      == Merge(adopted, old(FieldOf(name)), Lookup(c.stated, name), c.version))
                && (forall name :: name in written.value <==> Current(name) != old(Current(name)))
    {
      if collection != c.collection && c.transferredFrom != Some(collection) {
        return None;
      }
      var d := CompareAll(c);
      forall name ensures name in d.managed ==> name in c.stated {
        assert Drafted(c, d, name) == Merge(adopted, FieldOf(name), Lookup(c.stated, name), c.version);
      }
      label Before:
      record := record + d.writes;
      collection, version, checksum := c.collection, c.version, c.checksum;
      stated, managed := c.stated, d.managed;
      conflicts, corrections := d.conflicts, d.corrections;
      forall name
        ensures FieldOf(name) == old(Drafted(c, d, name)) && Current(name) == old(Drafted(c, d, name)).value
      {
      }
      return Some(d.writes.Keys);
    }
  }

  function ValueIn(record: map<string, Value>, name: string): Value {
    if name in record then record[name] else Null
  }

  /** What was decided about a field when its record is linked: for the field itself, else for all of them. */
  function Chosen(chosen: map<string, Decision>, otherwise: Option<Decision>, name: string): Option<Decision> {
    if name in chosen then Some(chosen[name]) else otherwise
  }

  /** Linking a record that existed. Nothing is made while some field that differs has no decision. */
  method Adopt(c: Release, record: map<string, Value>, chosen: map<string, Decision>, otherwise: Option<Decision>)
    returns (entry: Entry?)
    ensures entry == null <==>
              exists name :: name in c.stated
                && Linked(ValueIn(record, name), c.stated[name], Chosen(chosen, otherwise, name)).None?
    ensures entry != null ==> fresh(entry) && entry.Valid() && entry.adopted && entry.collection == c.collection
    ensures entry != null ==> forall name :: name in c.stated ==>
              Linked(ValueIn(record, name), c.stated[name], Chosen(chosen, otherwise, name))
                == Some(entry.FieldOf(name))
    ensures entry != null ==> forall name :: name !in c.stated ==>
              entry.FieldOf(name) == Field(None, false, None, None, ValueIn(record, name))
  {
    var managed, corrections, writes, undecided := {}, map[], map[], false;
    var names := c.stated.Keys;
    while names != {}
      invariant names <= c.stated.Keys && managed <= c.stated.Keys - names
      invariant corrections.Keys <= c.stated.Keys - names && writes.Keys <= c.stated.Keys - names
      invariant undecided <==>
                  exists name :: name in c.stated && name !in names
                    && Linked(ValueIn(record, name), c.stated[name], Chosen(chosen, otherwise, name)).None?
      invariant !undecided ==> forall name :: name in c.stated && name !in names ==>
                  Linked(ValueIn(record, name), c.stated[name], Chosen(chosen, otherwise, name))
                    == Some(Field(Some(c.stated[name]), name in managed, None, Lookup(corrections, name),
                                  if name in writes then writes[name] else ValueIn(record, name)))
      decreases names
    {
      var name :| name in names;
      names := names - {name};
      var cur, said := ValueIn(record, name), c.stated[name];
      var action := if Same(cur, said) || Blank(cur) then Some(Managed) else Chosen(chosen, otherwise, name);
      match action {
        case None =>
          undecided := true;
        case Some(Managed) =>
          managed := managed + {name};
          if !Same(cur, said) {
            writes := writes[name := said];
          }
        case Some(Propose) =>
          corrections := corrections[name := cur];
        case Some(Local) =>
      }
    }
    if undecided {
      return null;
    }
    entry := new Entry(c, true, managed, corrections, record + writes);
  }

  /** The same release once more writes nothing on the record. */
  method InstallTwice(entry: Entry, c: Release) returns (first: Option<set<string>>, second: Option<set<string>>)
    requires entry.Valid()
    modifies entry
    ensures entry.Valid()
    ensures first.Some? ==> second == Some({})
  {
    first := entry.Existing(c);
    if first.None? {
      return first, None;
    }
    label Once:
    second := entry.Existing(c);
    forall name ensures entry.Current(name) == old@Once(entry.Current(name)) {
      var f := old(entry.FieldOf(name));
      assert Sound(f);
      InstalledAgain(entry.adopted, f, Lookup(c.stated, name), c.version);
    }
    assert second.value == {};
  }

  /** A record that the collection makes, of what the release states and nothing else. */
  method Create(c: Release) returns (entry: Entry)
    ensures fresh(entry) && entry.Valid() && !entry.adopted && entry.collection == c.collection
    ensures forall name :: name in c.stated ==> entry.FieldOf(name) == Created(c.stated[name])
    ensures forall name :: name !in c.stated ==> entry.FieldOf(name) == Field(None, false, None, None, Null)
  {
    entry := new Entry(c, false, c.stated.Keys, map[], map name | name in c.stated :: c.stated[name]);
  }

  /** The release an entry was created by writes nothing when it is installed again, and every field stays. */
  method CreateThenInstall(c: Release) returns (entry: Entry, again: Option<set<string>>)
    ensures fresh(entry) && entry.Valid() && again == Some({})
    ensures forall name :: name in c.stated ==> entry.FieldOf(name) == Created(c.stated[name])
    ensures forall name :: name !in c.stated ==> entry.FieldOf(name) == Field(None, false, None, None, Null)
  {
    entry := Create(c);
    label Made:
    again := entry.Existing(c);
    forall name ensures entry.FieldOf(name) == old@Made(entry.FieldOf(name)) {
      if name in c.stated {
        FirstInstalledAgain(Null, c.stated[name], None, c.version);
      }
    }
    assert forall name :: entry.Current(name) == entry.FieldOf(name).value;
    assert again.value == {};
  }

  /** So does the release it was linked by, whatever was decided about each field. */
  method AdoptThenInstall(c: Release, record: map<string, Value>, chosen: map<string, Decision>,
                          otherwise: Option<Decision>) returns (entry: Entry?, again: Option<set<string>>)
    ensures entry != null ==> fresh(entry) && entry.Valid() && again == Some({})
    ensures entry != null ==> forall name :: name in c.stated ==>
              Linked(ValueIn(record, name), c.stated[name], Chosen(chosen, otherwise, name))
                == Some(entry.FieldOf(name))
    ensures entry != null ==> forall name :: name !in c.stated ==>
              entry.FieldOf(name) == Field(None, false, None, None, ValueIn(record, name))
  {
    entry := Adopt(c, record, chosen, otherwise);
    if entry == null {
      return entry, None;
    }
    label Made:
    again := entry.Existing(c);
    forall name ensures entry.FieldOf(name) == old@Made(entry.FieldOf(name)) {
      if name in c.stated {
        FirstInstalledAgain(ValueIn(record, name), c.stated[name], Chosen(chosen, otherwise, name), c.version);
      }
    }
    assert forall name :: entry.Current(name) == entry.FieldOf(name).value;
    assert again.value == {};
  }
}
