/** The identity and reverse-dependency base class of the document's entities.

    Every entity carries an identity (unattached, attached under a positive id,
    or disposed), a table of the entities that link to it, keyed by their ids,
    and a list of widget connectors.  The table is updated in place by
    registering and unregistering dependants; whether the entity may be deleted
    is read off that table.
 */
module Widgets {
  import opened Dependencies

  /** The outcome of a table update: done, or the error the JavaScript class raises
      (an assertion failure or a thrown `Error`); on an error nothing changes. */
  datatype Outcome = Pass | Fail(error: DepError)

  class WidgetBase {
    var name: string
    var id: Identity
    var dependencies: Table<WidgetBase>
    var widgetConnectors: seq<object>

    /** Every key of the table is the positive id a dependant was registered
        under. */
    ghost predicate Valid()
      reads this
    {
      forall k :: k in dependencies ==> k > 0
    }

    /** The ids of the entities currently registered as dependants. */
    ghost function LiveDependantIds(): set<nat>
      reads this
    {
      LiveIds(dependencies)
    }

    /** A new widget is unattached, has no dependants and no connectors. */
    constructor (name: string)
      ensures Valid()
      ensures this.name == name && id == Unattached
      ensures dependencies == map[] && widgetConnectors == []
      ensures LiveDependantIds() == {} && GetDependantEntities() == [] && CanDelete()
      ensures GetWidgetConnectors() == []
    {
      this.name := name;
      id := Unattached;
      dependencies := map[];
      widgetConnectors := [];
      new;
      assert SortedKeys(dependencies.Keys) == [];
    }

    /** Registers `entity` as a dependant of this widget.  Fails when `entity`
        has no positive id or when its slot already holds an entity. */
    method AddDependantEntity(entity: WidgetBase) returns (r: Outcome)
      requires Valid()
      modifies this`dependencies
      ensures Valid()
      ensures r.Pass? <==> IsRegistered(entity.id) && entity.id.n !in old(LiveDependantIds())
      ensures match Add(old(dependencies), entity.id, entity)
              case Ok(t) => r == Pass && dependencies == t
              case Err(e) => r == Fail(e) && dependencies == old(dependencies)
      ensures r.Pass? ==> entity in GetDependantEntities()
      ensures r.Pass? ==> |GetDependantEntities()| == |old(GetDependantEntities())| + 1
    {
      if !(entity.id.Attached? && entity.id.n > 0) {
        return Fail(NotRegistered);
      }
      var key := entity.id.n;
      if key in dependencies && dependencies[key].Some? {
        return Fail(AlreadyDependant(key));
      }
      dependencies := dependencies[key := Some(entity)];
      r := Pass;
    }

    /** Unregisters `entity`: empties the slot its current identity names.
        Fails when that slot does not hold an entity; an unattached or
        disposed entity names no slot. */
    method RemoveDependantEntity(entity: WidgetBase) returns (r: Outcome)
      requires Valid()
      modifies this`dependencies
      ensures Valid()
      ensures r.Pass? <==> entity.id.Attached? && entity.id.n in old(LiveDependantIds())
      ensures r.Pass? ==> IsRegistered(entity.id)
      ensures match Remove(old(dependencies), entity.id)
              case Ok(t) => r == Pass && dependencies == t
              case Err(e) => r == Fail(e) && dependencies == old(dependencies)
      ensures r.Pass? ==> |GetDependantEntities()| == |old(GetDependantEntities())| - 1
    {
      if !entity.id.Attached? {
        return Fail(NotADependant(entity.id));
      }
      var key := entity.id.n;
      if !(key in dependencies && dependencies[key].Some?) {
        return Fail(NotADependant(entity.id));
      }
      dependencies := dependencies[key := None];
      r := Pass;
    }

    /** The entities currently registered as dependants, by ascending id. */
    function GetDependantEntities(): (r: seq<WidgetBase>)
      reads this
      ensures |r| == |LiveDependantIds()|
      ensures forall i :: 0 <= i < |r| ==> Holds(dependencies, r[i])
      ensures forall k :: k in dependencies && dependencies[k].Some? ==> dependencies[k].value in r
    {
      var r := Dependants(dependencies);
      DependantsCount(dependencies);
      forall i | 0 <= i < |r|
        ensures Holds(dependencies, r[i])
      {
        DependantsMembership(dependencies, r[i]);
      }
      forall k | k in dependencies && dependencies[k].Some?
        ensures dependencies[k].value in r
      {
        DependantsMembership(dependencies, dependencies[k].value);
      }
      r
    }

    /** A widget may be deleted exactly when no entity is registered as its
        dependant. */
    function CanDelete(): (b: bool)
      reads this
      ensures b <==> LiveDependantIds() == {}
      ensures b <==> forall k :: k in dependencies ==> dependencies[k].None?
    {
      |GetDependantEntities()| == 0
    }

    /** Moves the widget to its terminal disposed state; the table, the
        connectors and the name are left as they were. */
    method Dispose()
      modifies this`id
      ensures id == Disposed
      ensures dependencies == old(dependencies) && widgetConnectors == old(widgetConnectors)
      ensures name == old(name)
    {
      id := Disposed;
    }

    /** The widget's connectors, as stored. */
    function GetWidgetConnectors(): (r: seq<object>)
      reads this
      ensures r == widgetConnectors
    {
      widgetConnectors
    }
  }

  /** The bookkeeping of a cut of two boxes: each operand lists the cut as its
      one dependant and cannot be deleted.
      The ids are assigned here the way the document assigns them. */
  method CutDependantsScenario()
  {
    var box0 := new WidgetBase("shape0");
    var box1 := new WidgetBase("shape1");
    var cut := new WidgetBase("shape2");
    box0.id, box1.id, cut.id := Attached(1), Attached(2), Attached(3);
    assert cut.CanDelete();

    var r := box0.AddDependantEntity(cut);
    assert r == Pass;
    r := box1.AddDependantEntity(cut);
    assert r == Pass;
    assert |box0.GetDependantEntities()| == 1 && |box1.GetDependantEntities()| == 1;
    assert !box0.CanDelete() && !box1.CanDelete();
  }

  /** Registering the same dependant twice fails; releasing it makes the
      widget deletable again and lets it register anew.  Once the cut is
      disposed it can be neither registered nor unregistered, so an operand it
      still links to stays undeletable. */
  method ReleaseAndDisposeScenario()
  {
    var box := new WidgetBase("shape0");
    var cut := new WidgetBase("shape1");
    box.id, cut.id := Attached(1), Attached(2);

    var r := box.AddDependantEntity(cut);
    r := box.AddDependantEntity(cut);
    assert r == Fail(AlreadyDependant(2));
    r := box.RemoveDependantEntity(cut);
    assert r == Pass && box.CanDelete();

    r := box.AddDependantEntity(cut);
    assert r == Pass;
    cut.Dispose();
    r := box.RemoveDependantEntity(cut);
    assert r == Fail(NotADependant(Disposed)) && !box.CanDelete();
    r := box.AddDependantEntity(cut);
    assert r == Fail(NotRegistered);
  }
}
