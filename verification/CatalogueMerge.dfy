/**
 Installing a release on an entry that already has a record: for each field, a three-way comparison
 of what the last release stated, what this one states and what the record holds.

 `Field` is everything the entry and its record keep about one field. `Merge` is what a release does
 to it; people edit and decide in between.
 */
module CatalogueMerge {
  import opened CatalogueValues
  import opened Texts
  import opened Wrappers

  datatype Conflict = Conflict(release: Value, record: Value, version: string)

  datatype Field = Field(stated: Option<Said>, managed: bool, conflict: Option<Conflict>, correction: Option<Value>,
                         value: Value)

  datatype Decision = Managed | Local | Propose

  function LastStated(f: Field): Value {
    if f.stated.Some? then f.stated.value else Null
  }

  /** A correction proposed back that the release carries. */
  predicate Carries(f: Field, said: Value) {
    f.correction.Some? && Same(f.correction.value, said)
  }

  function Disagree(f: Field, said: Said, version: string): Field {
    f.(conflict := Some(Conflict(said, f.value, version)))
  }

  function Take(f: Field, said: Said): Field {
    if Same(f.value, said) then f else f.(value := said)
  }

  /** What a release says about a field, once corrections it carries are closed. */
  function Weigh(adopted: bool, f: Field, said: Said, version: string): Field {
    if f.managed then
      if Same(f.value, said) then f.(conflict := None)
      else if Same(f.value, LastStated(f)) then f.(value := said, conflict := None)
      else Disagree(f, said, version)
    else if f.stated.None? && !adopted then Take(f, said).(managed := true)
    else if f.stated.None? then
      if Blank(f.value) || Same(f.value, said) then Take(f, said).(managed := true)
      else Disagree(f, said, version)
    else if !Same(f.stated.value, said) && !Same(f.value, said) then Disagree(f, said, version)
    else f
  }

  /** A release that states the field. */
  function MergeStated(adopted: bool, f: Field, said: Said, version: string): Field {
    var g := if Carries(f, said) then f.(correction := None, managed := true) else f;
    Weigh(adopted, g, said, version).(stated := Some(said))
  }

  function Merge(adopted: bool, f: Field, release: Option<Said>, version: string): Field {
    match release
    case Some(said) => MergeStated(adopted, f, said, version)
    case None => if f.stated.Some? then f.(stated := None, managed := false) else f
  }

  /** A field of a record the collection creates. */
  function Created(said: Said): Field {
    Field(Some(said), true, None, None, said)
  }

  /** A field of a record that existed and is linked; nothing when it differs and nobody has decided. */
  function Linked(value: Value, said: Said, decision: Option<Decision>): Option<Field> {
    if Same(value, said) then Some(Field(Some(said), true, None, None, value))
    else if Blank(value) then Some(Field(Some(said), true, None, None, said))
    else match decision
      case None => None
      case Some(Managed) => Some(Field(Some(said), true, None, None, said))
      case Some(Local) => Some(Field(Some(said), false, None, None, value))
      case Some(Propose) => Some(Field(Some(said), false, None, Some(value), value))
  }

  /** A person decides about one field of an installed entry; refused when the collection does not state it. */
  function Decide(f: Field, decision: Decision): Option<Field> {
    if f.stated.None? then None
    else
      var g := f.(conflict := None);
      match decision
      case Managed => Some(Take(g, f.stated.value).(managed := true, correction := None))
      case Local => Some(g.(managed := false, correction := None))
      case Propose => Some(g.(managed := false, correction := Some(f.value)))
  }

  // ------------------------------------------------------------------ the life of a field

  datatype Event =
    | Install(release: Option<Said>, version: string)
    | Edit(value: Value)
    | Decides(decision: Decision)

  function Happens(adopted: bool, f: Field, e: Event): Field {
    match e
    case Install(release, version) => Merge(adopted, f, release, version)
    case Edit(value) => f.(value := value)
    case Decides(decision) =>
      match Decide(f, decision)
      case Some(g) => g
      case None => f
  }

  function Play(adopted: bool, f: Field, events: seq<Event>): Field
    decreases |events|
  {
    if events == [] then f else Play(adopted, Happens(adopted, f, events[0]), events[1..])
  }

  /** Only a field the collection states is managed. */
  predicate Sound(f: Field) {
    f.managed ==> f.stated.Some?
  }

  lemma {:induction false} SoundStays(adopted: bool, f: Field, events: seq<Event>)
    requires Sound(f)
    ensures Sound(Play(adopted, f, events))
    decreases |events|
  {
    if events != [] {
      SoundStays(adopted, Happens(adopted, f, events[0]), events[1..]);
    }
  }

  lemma StartsSound(value: Value, said: Said, decision: Option<Decision>)
    ensures Sound(Created(said))
    ensures Linked(value, said, decision).Some? ==> Sound(Linked(value, said, decision).value)
  {
  }

  // ------------------------------------------------------------------ after a release

  /** After any release: what it states is what is stated; a managed field is stated, and either holds the
      release's value or is in conflict with exactly that value; and a value is only ever replaced by the
      release's own. */
  lemma AfterRelease(adopted: bool, f: Field, release: Option<Said>, version: string)
    requires Sound(f)
    ensures var g := Merge(adopted, f, release, version);
            && g.stated == release
            && (g.managed ==> release.Some?)
            && (g.managed ==> Same(g.value, release.value)
                              || g.conflict == Some(Conflict(release.value, g.value, version)))
            && (g.value == f.value || (release.Some? && g.managed && g.value == release.value))
  {
    var g := Merge(adopted, f, release, version);
    if release.Some? {
      SameIsAnEquivalence(release.value, release.value, release.value);
    }
  }

  /** Where a release leaves record and collection apart, it lists that as a conflict, with both values, unless it is
      a local override that it does not touch, which keeps the conflict it had or had not. Where they agree, a
      conflict is cleared that the collection manages, now or by a correction that came back, and any other stays. */
  lemma ConflictAfter(adopted: bool, f: Field, said: Said, version: string)
    requires Sound(f)
    ensures var g := Merge(adopted, f, Some(said), version);
            && (!Same(g.value, said) && (g.managed || f.stated.None? || !Same(f.stated.value, said)) ==>
                  g.conflict == Some(Conflict(said, g.value, version)))
            && (!Same(g.value, said) && !g.managed && f.stated.Some? && Same(f.stated.value, said) ==>
                  g.conflict == f.conflict)
            && (Same(g.value, said) && (f.managed || (f.correction.Some? && Same(f.correction.value, said))) ==>
                  g.conflict == None)
            && (Same(g.value, said) && !f.managed && !(f.correction.Some? && Same(f.correction.value, said)) ==>
                  g.conflict == f.conflict)
  {
    SameIsAnEquivalence(said, said, said);
  }

  /** A field comes under the collection by a correction that came back, or by being newly stated: on a record the
      collection made, or where the record has nothing or the same. A correction is closed by coming back. */
  lemma ManagedAfter(adopted: bool, f: Field, said: Said, version: string)
    ensures var g, back := Merge(adopted, f, Some(said), version), f.correction.Some? && Same(f.correction.value, said);
            && (g.managed <==> f.managed || back
                               || (f.stated.None? && (!adopted || Blank(f.value) || Same(f.value, said))))
            && g.correction == if back then None else f.correction
  {
  }

  /** A release that no longer states a field lets go of it, and leaves its value, its conflict and its correction. */
  lemma DroppedAfter(adopted: bool, f: Field, version: string)
    requires Sound(f)
    ensures Merge(adopted, f, None, version) == Field(None, false, f.conflict, f.correction, f.value)
  {
  }

  /** What a person decides settles a field's conflict: to manage it takes the collection's value, to keep it local or
      to propose it back keeps the record's, and only what is proposed is a correction. */
  lemma DecidedIs(adopted: bool, f: Field, decision: Decision)
    ensures f.stated.None? ==> Decide(f, decision) == None && Happens(adopted, f, Decides(decision)) == f
    ensures f.stated.Some? ==>
              var g := Happens(adopted, f, Decides(decision));
              && Decide(f, decision) == Some(g)
              && g.stated == f.stated && g.conflict == None && (g.managed <==> decision == Managed)
              && g.correction == (if decision == Propose then Some(f.value) else None)
              && g.value == if decision == Managed && !Same(f.value, f.stated.value) then f.stated.value else f.value
  {
  }

  /** What a person writes is the value, and all else stays. */
  lemma EditedIs(adopted: bool, f: Field, value: Value)
    ensures Happens(adopted, f, Edit(value)) == Field(f.stated, f.managed, f.conflict, f.correction, value)
  {
  }

  /** A record is linked unless it differs and nobody has decided. Its own value stays, unless it had none or the
      collection's is taken; only where it agrees, had none, or that was decided is the field managed; and only what
      is proposed is a correction. A record that the collection makes is linked as one that had nothing. */
  lemma LinkedIs(value: Value, said: Said, decision: Option<Decision>)
    ensures Linked(Null, said, decision) == Some(Created(said))
    ensures Linked(value, said, decision).None? <==> !Blank(value) && !Same(value, said) && decision == None
    ensures Linked(value, said, decision).Some? ==>
              var g := Linked(value, said, decision).value;
              var taken := !Same(value, said) && (Blank(value) || decision == Some(Managed));
              && g.stated == Some(said) && g.conflict == None
              && g.value == (if taken then said else value)
              && (g.managed <==> taken || Same(value, said))
              && g.correction == if !g.managed && decision == Some(Propose) then Some(value) else None
  {
  }

  /** A release writes over a value only when the value is blank, is what the last release stated, or is a
      field of a record the collection made that it had stopped stating. */
  lemma WrittenOnlyWhen(adopted: bool, f: Field, said: Said, version: string)
    requires Sound(f)
    ensures Merge(adopted, f, Some(said), version).value != f.value <==>
            && !Same(f.value, said)
            && (if f.managed || Carries(f, said) then Same(f.value, LastStated(f))
                else f.stated.None? && (!adopted || Blank(f.value)))
  {
    SameIsAnEquivalence(f.value, said, said);
    SameIsAnEquivalence(said, f.value, said);
  }

  /** A conflict kept on a field whose record and release agree. */
  predicate Settled(f: Field) {
    f.conflict.Some? && f.stated.Some? && Same(f.value, f.stated.value)
  }

  /** Installing the same release again writes nothing, and changes nothing at all except that it removes
      a settled conflict from a managed field. */
  lemma InstalledAgain(adopted: bool, f: Field, release: Option<Said>, version: string)
    requires Sound(f)
    ensures var g := Merge(adopted, f, release, version);
            Merge(adopted, g, release, version) ==
              if g.managed && Settled(g) then g.(conflict := None) else g
  {
    var g := Merge(adopted, f, release, version);
    if release.Some? {
      var said := release.value;
      SameIsAnEquivalence(said, said, said);
      SameIsAnEquivalence(f.value, said, said);
      SameIsAnEquivalence(g.value, said, said);
      if Carries(f, said) {
        assert !Carries(g, said);
      }
    }
  }

  /** The release that a field was created or linked by, installed again, changes nothing at all, whatever was
      decided about the field. */
  lemma FirstInstalledAgain(value: Value, said: Said, decision: Option<Decision>, version: string)
    ensures Merge(false, Created(said), Some(said), version) == Created(said)
    ensures var f := Linked(value, said, decision);
            f.Some? ==> Merge(true, f.value, Some(said), version) == f.value
  {
    SameIsAnEquivalence(said, said, said);
    SameIsAnEquivalence(value, said, said);
  }

  /** A release leaves a settled conflict exactly when the field was in conflict before, was not managed and
      no correction of it came back, and the release and the record now agree. */
  lemma SettledConflictStays(adopted: bool, f: Field, said: Said, version: string)
    requires Sound(f)
    ensures var g := Merge(adopted, f, Some(said), version);
            Settled(g) <==>
              f.conflict.Some? && !f.managed && !Carries(f, said)
              && (Same(f.value, said) || (f.stated.None? && (!adopted || Blank(f.value))))
  {
    SameIsAnEquivalence(f.value, said, said);
    SameIsAnEquivalence(said, said, said);
  }

  // ------------------------------------------------------------------ what a person wrote

  /** A value a person wrote: not blank, and not what the last release stated. */
  predicate Written(f: Field, v: Value) {
    f.value == v && !Blank(v) && !Same(v, LastStated(f))
  }

  /** Events after which a person still expects the value they wrote: releases that do not state it, and
      decisions that keep the record's value. */
  predicate Keeping(e: Event, v: Value) {
    match e
    case Install(release, _) => release.Some? ==> !Same(v, release.value)
    case Edit(_) => false
    case Decides(decision) => !decision.Managed?
  }

  predicate AllKeeping(events: seq<Event>, v: Value) {
    forall i :: 0 <= i < |events| ==> Keeping(events[i], v)
  }

  /** The guard of the branch that overwrites: a newly stated field of a record the collection made. */
  predicate Overwrites(adopted: bool, f: Field, e: Event) {
    e.Install? && e.release.Some? && f.stated.None? && !adopted && !Carries(f, e.release.value)
  }

  /** Some event of the run meets the field in a state it overwrites. */
  predicate Overwritten(adopted: bool, f: Field, events: seq<Event>)
    decreases |events|
  {
    events != [] &&
    (Overwrites(adopted, f, events[0]) || Overwritten(adopted, Happens(adopted, f, events[0]), events[1..]))
  }

  lemma KeepingStep(adopted: bool, f: Field, e: Event, v: Value)
    requires Sound(f) && Written(f, v) && Keeping(e, v)
    ensures Overwrites(adopted, f, e) ==> !Same(Happens(adopted, f, e).value, v)
    ensures !Overwrites(adopted, f, e) ==> Written(Happens(adopted, f, e), v)
  {
    if e.Install? && e.release.Some? {
      SameIsAnEquivalence(v, e.release.value, v);
      SameIsAnEquivalence(e.release.value, v, v);
    }
    SameIsAnEquivalence(v, Null, v);
  }

  lemma StaysAway(adopted: bool, f: Field, e: Event, v: Value)
    requires Sound(f) && !Same(f.value, v) && Keeping(e, v) && (f.stated.Some? ==> !Same(f.stated.value, v))
    ensures var g := Happens(adopted, f, e);
            Sound(g) && !Same(g.value, v) && (g.stated.Some? ==> !Same(g.stated.value, v))
  {
    if e.Install? && e.release.Some? {
      SameIsAnEquivalence(v, e.release.value, v);
      SameIsAnEquivalence(e.release.value, v, v);
    }
  }

  /** A value that is not `v` never becomes `v` by releases that do not state it. */
  lemma {:induction false} NeverComesBack(adopted: bool, f: Field, events: seq<Event>, v: Value)
    requires Sound(f) && !Same(f.value, v) && AllKeeping(events, v)
    requires f.stated.Some? ==> !Same(f.stated.value, v)
    ensures !Same(Play(adopted, f, events).value, v)
    decreases |events|
  {
    if events != [] {
      var e := events[0];
      StaysAway(adopted, f, e, v);
      assert AllKeeping(events[1..], v);
      NeverComesBack(adopted, Happens(adopted, f, e), events[1..], v);
    }
  }

  /** Through every later sequence of releases and decisions that keep it, the value a person wrote is still
      there exactly when no release newly states the field on a record the collection made. */
  lemma {:induction false} WrittenSurvivesIff(adopted: bool, f: Field, events: seq<Event>, v: Value)
    requires Sound(f) && Written(f, v) && AllKeeping(events, v)
    ensures Play(adopted, f, events).value == v <==> !Overwritten(adopted, f, events)
    decreases |events|
  {
    SameIsAnEquivalence(v, v, v);
    if events != [] {
      var e := events[0];
      var g := Happens(adopted, f, e);
      KeepingStep(adopted, f, e, v);
      if Overwrites(adopted, f, e) {
        SameIsAnEquivalence(e.release.value, v, v);
        NeverComesBack(adopted, g, events[1..], v);
      } else {
        WrittenSurvivesIff(adopted, g, events[1..], v);
      }
    }
  }

  lemma {:induction false} AdoptedIsNeverOverwritten(f: Field, events: seq<Event>)
    ensures !Overwritten(true, f, events)
    decreases |events|
  {
    if events != [] {
      AdoptedIsNeverOverwritten(Happens(true, f, events[0]), events[1..]);
    }
  }

  /** On an adopted record, what a person wrote survives every later sequence of releases until a person
      writes again or takes the collection's value, or a release states that same value: through releases
      that drop the field and state it again, and corrections that come back. */
  lemma WrittenSurvivesOnAdopted(f: Field, v: Value, events: seq<Event>)
    requires Sound(f) && !Blank(v) && !Same(v, LastStated(f)) && AllKeeping(events, v)
    ensures Play(true, Happens(true, f, Edit(v)), events).value == v
  {
    var g := Happens(true, f, Edit(v));
    AdoptedIsNeverOverwritten(g, events);
    WrittenSurvivesIff(true, g, events, v);
  }

  /** On a record the collection made, a value written there is lost when a release drops the field and the
      next states it again. */
  lemma DroppedAndStatedAgainIsOverwritten()
    ensures var v := Text("https://local.example/x.pdf");
            var f := Happens(false, Created(Text("a.pdf")), Edit(v));
            var events := [Install(None, "1.1.0"), Install(Some(Text("b.pdf")), "1.2.0")];
            && Written(f, v) && AllKeeping(events, v)
            && Play(false, f, events).value == Text("b.pdf")
            && Play(false, f, events).conflict == None
  {
    var v := Text("https://local.example/x.pdf");
    var events := [Install(None, "1.1.0"), Install(Some(Text("b.pdf")), "1.2.0")];
    assert Plain("https://local.example/x.pdf") && Plain("a.pdf") && Plain("b.pdf");
    PlainStrips("https://local.example/x.pdf");
    PlainStrips("a.pdf");
    PlainStrips("b.pdf");
    assert events[1..] == [events[1]] && events[1..][1..] == [];
  }

  /** What the last release that stated the field said, after `first`. */
  function LastSaid(first: Value, events: seq<Event>): Value
    decreases |events|
  {
    if events == [] then first
    else LastSaid(if events[0].Install? && events[0].release.Some? then events[0].release.value else first, events[1..])
  }

  /** Nobody edits a record the collection made: it holds what the last release that stated the field said, also
      while the field is dropped, and is never in conflict. */
  lemma {:induction false} UneditedFollows(f: Field, first: Value, events: seq<Event>)
    requires forall i :: 0 <= i < |events| ==> events[i].Install?
    requires f.managed == f.stated.Some? && f.conflict.None? && f.correction.None?
    requires Same(f.value, first) && (f.stated.Some? ==> Same(f.stated.value, first))
    ensures var g := Play(false, f, events);
            && g.managed == g.stated.Some? && g.conflict.None?
            && Same(g.value, LastSaid(first, events))
            && (g.stated.Some? ==> Same(g.stated.value, LastSaid(first, events)))
    decreases |events|
  {
    if events != [] {
      var g := Happens(false, f, events[0]);
      if events[0].release.Some? {
        var said := events[0].release.value;
        SameIsAnEquivalence(said, said, said);
        SameIsAnEquivalence(f.value, first, f.value);
        SameIsAnEquivalence(first, LastStated(f), first);
        SameIsAnEquivalence(f.value, first, LastStated(f));
        UneditedFollows(g, said, events[1..]);
      } else {
        UneditedFollows(g, first, events[1..]);
      }
    }
  }

  /** A person links a record and keeps its own value; a release changes what it says, which is a conflict; the
      person takes that value; the next release says it again, and the conflict is still listed. */
  lemma AgreedButStillListed()
    ensures var start := Linked(Text("mine"), Text("a"), Some(Local));
            && start.Some?
            && var f := Play(true, start.value,
                             [Install(Some(Text("b")), "2"), Edit(Text("b")), Install(Some(Text("b")), "3")]);
               f.value == Text("b") && f.stated == Some(Text("b")) && Settled(f)
  {
    assert Plain("mine") && Plain("a") && Plain("b");
    PlainStrips("mine");
    PlainStrips("a");
    PlainStrips("b");
    var events := [Install(Some(Text("b")), "2"), Edit(Text("b")), Install(Some(Text("b")), "3")];
    var f := Linked(Text("mine"), Text("a"), Some(Local)).value;
    assert events[1..] == [events[1], events[2]] && events[1..][1..] == [events[2]];
    assert events[1..][1..][1..] == [];
    var g := Happens(true, f, events[0]);
    assert g == Field(Some(Text("b")), false, Some(Conflict(Text("b"), Text("mine"), "2")), None, Text("mine"));
    var h := Happens(true, Happens(true, g, events[1]), events[2]);
    assert Play(true, f, events) == Play(true, h, []) == h;
  }
}
