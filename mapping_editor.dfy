/**
 * The mapping editor's state: the list of mapping rules being authored and
 * the index of the rule whose custom-logic builder is open, if any.
 */
module MappingEditor {
  import opened Wrappers

  /** One rule: an optional source column, a destination name, optional custom logic. */
  datatype MappingField = MappingField(
    sourceField: Option<string>,
    destinationField: string,
    customLogic: Option<string>)

  /**
   * A partial rule, as passed to updateField: each key is either absent
   * (None) or carries the new value for that key.
   */
  datatype Patch = Patch(
    sourceField: Option<string>,
    destinationField: Option<string>,
    customLogic: Option<string>)

  /** The keys of a rule. */
  datatype Key = SourceKey | DestinationKey | LogicKey

  /** The value a rule holds under a key; the destination is always present. */
  function Get(m: MappingField, k: Key): Option<string>
  {
    match k
    case SourceKey => m.sourceField
    case DestinationKey => Some(m.destinationField)
    case LogicKey => m.customLogic
  }

  /** The value a patch carries under a key, None when the key is absent. */
  function PatchGet(p: Patch, k: Key): Option<string>
  {
    match k
    case SourceKey => p.sourceField
    case DestinationKey => p.destinationField
    case LogicKey => p.customLogic
  }

  /**
   * The spread `{ ...m, ...p }`: keys present in the patch take the patch's
   * value, every other key keeps the rule's value.
   */
  function Merge(m: MappingField, p: Patch): (r: MappingField)
    ensures forall k :: PatchGet(p, k).Some? ==> Get(r, k) == PatchGet(p, k)
    ensures forall k :: PatchGet(p, k).None? ==> Get(r, k) == Get(m, k)
  {
    MappingField(
      if p.sourceField.Some? then p.sourceField else m.sourceField,
      if p.destinationField.Some? then p.destinationField.value else m.destinationField,
      if p.customLogic.Some? then p.customLogic else m.customLogic)
  }

  /** The spread `{ ...p, ...q }` of two patches: q's keys win over p's. */
  function Combine(p: Patch, q: Patch): (r: Patch)
    ensures forall k :: PatchGet(r, k) == if PatchGet(q, k).Some? then PatchGet(q, k) else PatchGet(p, k)
  {
    Patch(
      if q.sourceField.Some? then q.sourceField else p.sourceField,
      if q.destinationField.Some? then q.destinationField else p.destinationField,
      if q.customLogic.Some? then q.customLogic else p.customLogic)
  }

  /** Two rules are equal exactly when they agree on every key. */
  lemma {:induction false} SameKeys(m: MappingField, m': MappingField)
    requires forall k :: Get(m, k) == Get(m', k)
    ensures m == m'
  {
    assert Get(m, SourceKey) == Get(m', SourceKey);
    assert Get(m, DestinationKey) == Get(m', DestinationKey);
    assert Get(m, LogicKey) == Get(m', LogicKey);
  }

  /**
   * The per-key contract of Merge determines the merged rule: any rule that
   * takes the update's present keys and keeps every other key is Merge's result.
   */
  lemma MergeDetermined(m: MappingField, p: Patch, r: MappingField)
    requires forall k :: PatchGet(p, k).Some? ==> Get(r, k) == PatchGet(p, k)
    requires forall k :: PatchGet(p, k).None? ==> Get(r, k) == Get(m, k)
    ensures r == Merge(m, p)
  {
    SameKeys(r, Merge(m, p));
  }

  /** Two updates in a row are one update with their keys combined, the later winning. */
  lemma MergeCombine(m: MappingField, p: Patch, q: Patch)
    ensures Merge(Merge(m, p), q) == Merge(m, Combine(p, q))
  {
  }

  /** The rule addField appends: only the destination key is present, and it is empty. */
  function Blank(): (m: MappingField)
    ensures forall k :: Get(m, k) == if k == DestinationKey then Some("") else None
  {
    MappingField(None, "", None)
  }

  /** JavaScript truthiness of an optional string: present and not empty. */
  predicate Truthy(s: Option<string>)
  {
    s.Some? && s.value != ""
  }

  /** The "Add Custom Logic" button is rendered only for a rule whose source is not truthy. */
  predicate OffersLogic(m: MappingField)
    ensures OffersLogic(m) <==> !Truthy(Get(m, SourceKey))
  {
    m.sourceField.None? || m.sourceField == Some("")
  }

  /** The editor component's state. */
  class Editor {
    var fields: seq<MappingField>
    var activeLogicField: Option<int>

    /** The logic builder, when open, belongs to a rule of the list. */
    ghost predicate Valid()
      reads this
    {
      activeLogicField.Some? ==> 0 <= activeLogicField.value < |fields|
    }

    /** A fresh editor: no rules and no logic builder open. */
    constructor ()
      ensures Valid()
      ensures fields == [] && activeLogicField == None
    {
      fields := [];
      activeLogicField := None;
    }

    /** addField: appends a blank rule, keeping every existing rule. */
    method AddField()
      requires Valid()
      modifies this
      ensures Valid()
      ensures |fields| == |old(fields)| + 1
      ensures fields[..|old(fields)|] == old(fields)
      ensures fields[|fields| - 1] == Blank()
      ensures activeLogicField == old(activeLogicField)
    {
      fields := fields + [Blank()];
    }

    /**
     * updateField: merges the update into the rule at index; the list keeps
     * its length and every other rule.
     */
    method UpdateField(index: nat, updates: Patch)
      requires Valid() && index < |fields|
      modifies this
      ensures Valid()
      ensures |fields| == |old(fields)|
      ensures fields[index] == Merge(old(fields)[index], updates)
      ensures forall j :: 0 <= j < |fields| && j != index ==> fields[j] == old(fields)[j]
      ensures activeLogicField == old(activeLogicField)
    {
      var newFields := fields;
      newFields := newFields[index := Merge(newFields[index], updates)];
      fields := newFields;
    }

    /** Choosing a source column for a rule. */
    method SelectSource(index: nat, value: string)
      requires Valid() && index < |fields|
      modifies this
      ensures Valid()
      ensures fields == old(fields)[index := old(fields)[index].(sourceField := Some(value))]
      ensures activeLogicField == old(activeLogicField)
    {
      UpdateField(index, Patch(Some(value), None, None));
    }

    /** Typing a destination name for a rule. */
    method RenameDestination(index: nat, value: string)
      requires Valid() && index < |fields|
      modifies this
      ensures Valid()
      ensures fields == old(fields)[index := old(fields)[index].(destinationField := value)]
      ensures activeLogicField == old(activeLogicField)
    {
      UpdateField(index, Patch(None, Some(value), None));
    }

    /** Opening the logic builder for a rule that offers it. */
    method OpenLogic(index: nat)
      requires Valid() && index < |fields| && OffersLogic(fields[index])
      modifies this
      ensures Valid()
      ensures fields == old(fields) && activeLogicField == Some(index)
    {
      activeLogicField := Some(index);
    }

    /** Closing the logic builder without saving. */
    method CloseLogic()
      requires Valid()
      modifies this
      ensures Valid()
      ensures fields == old(fields) && activeLogicField == None
    {
      activeLogicField := None;
    }

    /**
     * handleLogicSave: stores code as the rule's custom logic, leaves the
     * rest of the list alone and closes the logic builder.
     */
    method HandleLogicSave(index: nat, code: string)
      requires Valid() && index < |fields|
      modifies this
      ensures Valid()
      ensures |fields| == |old(fields)|
      ensures fields[index] == old(fields)[index].(customLogic := Some(code))
      ensures forall j :: 0 <= j < |fields| && j != index ==> fields[j] == old(fields)[j]
      ensures activeLogicField == None
    {
      UpdateField(index, Patch(None, None, Some(code)));
      activeLogicField := None;
    }

    /** The logic builder's save button: saves into the rule it was opened for. */
    method SaveFromLogicBuilder(code: string)
      requires Valid() && activeLogicField.Some?
      modifies this
      ensures Valid()
      ensures var i := old(activeLogicField).value;
        && 0 <= i < |fields| == |old(fields)|
        && fields == old(fields)[i := old(fields)[i].(customLogic := Some(code))]
        && activeLogicField == None
    {
      HandleLogicSave(activeLogicField.value, code);
    }

    /** "Save Mapping": hands over the current list as it stands. */
    method Save() returns (mapping: seq<MappingField>)
      ensures mapping == fields
    {
      mapping := fields;
    }
  }
}
