/** The textual side of a feature: its description tokens, the
    tab-separated line `Serialize` writes, the column names, and the
    process-wide registry of deserialisation functions that
    `FromDescription` dispatches through. */
module Descriptions {
  import opened Wrappers
  import opened Features
  import StringUtil

  // ---------------------------------------------------------------------------
  // Description and serialisation
  // ---------------------------------------------------------------------------

  /** The inputs of `r` are nodes of the arena (`Feature.cpp`
      dereferences every input pointer). */
  predicate InputsPresent(g: Arena, r: Ref)
    requires r in g
  {
    forall j :: 0 <= j < |g[r].inputs| ==> g[r].inputs[j] in g
  }

  /** `GetDescription()`: id, type tag, the ids of the inputs in input order,
      then the subclass-specific tokens. */
  function GetDescription(g: Arena, r: Ref): (d: seq<string>)
    requires r in g && InputsPresent(g, r)
    ensures |d| == 2 + |g[r].inputs| + |g[r].extras|
    ensures d[0] == g[r].id && d[1] == g[r].cls.name
    ensures forall j :: 0 <= j < |g[r].inputs| ==> d[2 + j] == g[g[r].inputs[j]].id
    ensures d[2 + |g[r].inputs|..] == g[r].extras
  {
    var n := g[r];
    [n.id, n.cls.name] + seq(|n.inputs|, j requires 0 <= j < |n.inputs| => g[n.inputs[j]].id) + n.extras
  }

  /** `Serialize()`: the description tokens joined by single tabs, followed
      by one newline. */
  function Serialize(g: Arena, r: Ref): (line: string)
    requires r in g && InputsPresent(g, r)
    ensures |line| > 0 && line[|line| - 1] == '\n'
    ensures StringUtil.Split(line[..|line| - 1], '\t') == StringUtil.SplitAll(GetDescription(g, r), '\t')
    ensures (forall i :: 0 <= i < |GetDescription(g, r)| ==> StringUtil.Free(GetDescription(g, r)[i], '\t'))
      ==> StringUtil.Split(line[..|line| - 1], '\t') == GetDescription(g, r)
  {
    var d := GetDescription(g, r);
    var line := StringUtil.Join(d, '\t') + "\n";
    assert line[..|line| - 1] == StringUtil.Join(d, '\t');
    StringUtil.SplitJoinAll(d, '\t');
    StringUtil.SplitAllFree(d, '\t');
    line
  }

  /** `GetColumnDescriptions()`: one name per output column, the type tag,
      an underscore and the column index. */
  function GetColumnDescriptions(n: Node): (names: seq<string>)
    ensures |names| == n.cls.numColumns
    ensures forall i :: 0 <= i < |names| ==>
      && |names[i]| > |n.cls.name| + 1
      && names[i][..|n.cls.name| + 1] == n.cls.name + "_"
      && StringUtil.AllDigits(names[i][|n.cls.name| + 1..])
      && StringUtil.DecimalValue(names[i][|n.cls.name| + 1..]) == i
      && (names[i][|n.cls.name| + 1] != '0' || |names[i]| == |n.cls.name| + 2)
  {
    var names := seq(n.cls.numColumns, i requires 0 <= i => n.cls.name + "_" + StringUtil.NatToDecimal(i));
    assert forall i :: 0 <= i < |names| ==> names[i][|n.cls.name| + 1..] == StringUtil.NatToDecimal(i);
    ColumnIndexesReadBack(n.cls.numColumns);
    names
  }

  lemma ColumnIndexesReadBack(count: nat)
    ensures forall i: nat :: i < count ==> StringUtil.DecimalValue(StringUtil.NatToDecimal(i)) == i
  {
    forall i: nat | i < count
      ensures StringUtil.DecimalValue(StringUtil.NatToDecimal(i)) == i
    {
      StringUtil.DecimalRoundTrip(i);
    }
  }

  /** No two columns of a node share a name. */
  lemma ColumnDescriptionsDistinct(n: Node, i: nat, j: nat)
    requires i < j < n.cls.numColumns
    ensures GetColumnDescriptions(n)[i] != GetColumnDescriptions(n)[j]
  {
  }

  // ---------------------------------------------------------------------------
  // Registry of deserialisation functions
  // ---------------------------------------------------------------------------

  /** Ids of the features already rebuilt in one deserialisation pass. */
  type FeatureMap = map<string, Ref>

  /** What a deserialisation function leaves behind: the node or an error,
      the feature map as it updated it (the map is passed by reference), and
      the instance count after the constructors it ran. */
  datatype Built = Built(result: Result<Node>, featureMap: FeatureMap, instanceCount: nat)

  /** A deserialisation function: builds a node from description tokens,
      resolving input ids through the feature map, or fails. */
  type Factory = (seq<string>, FeatureMap, nat) -> Built

  /** The registry: type tag to deserialisation function. A tag may map to
      no function (`None`), as a null entry in the C++ table does. */
  datatype Registry = Registry(entries: map<string, Option<Factory>>)

  /** `RegisterDeserializeFunction`: insert or overwrite the entry for `tag`. */
  function RegisterDeserializeFunction(reg: Registry, tag: string, create: Factory): (reg2: Registry)
    ensures reg2.entries.Keys == reg.entries.Keys + {tag}
    ensures reg2.entries[tag] == Some(create)
    ensures forall t :: t in reg.entries && t != tag ==> reg2.entries[t] == reg.entries[t]
  {
    Registry(reg.entries[tag := Some(create)])
  }

  /** `GetRegisteredTypes()`: every tag of the registry exactly once, in
      whatever order the table yields them. */
  method GetRegisteredTypes(reg: Registry) returns (types: seq<string>)
    ensures forall t :: t in types <==> t in reg.entries
    ensures forall i, j :: 0 <= i < j < |types| ==> types[i] != types[j]
    ensures |types| == |reg.entries|
  {
    types := [];
    var rest := reg.entries.Keys;
    while rest != {}
      invariant rest <= reg.entries.Keys
      invariant forall t :: t in reg.entries <==> t in rest || t in types
      invariant forall t :: t in rest ==> t !in types
      invariant forall i, j :: 0 <= i < j < |types| ==> types[i] != types[j]
      invariant |types| + |rest| == |reg.entries.Keys|
      decreases |rest|
    {
      var t :| t in rest;
      types := types + [t];
      rest := rest - {t};
    }
  }

  const UnknownTypePrefix := "Error deserializing feature description: unknown feature type '"

  /** The error message for a type tag with no deserialisation function:
      it quotes the tag. */
  function UnknownTypeMessage(tag: string): (msg: string)
    ensures |msg| == |UnknownTypePrefix| + |tag| + 1
    ensures msg[..|UnknownTypePrefix|] == UnknownTypePrefix
    ensures StringUtil.OccursAt(msg, tag, |UnknownTypePrefix|)
    ensures msg[|msg| - 1] == '\''
  {
    var msg := UnknownTypePrefix + tag + "'";
    assert msg[|UnknownTypePrefix|..|UnknownTypePrefix| + |tag|] == tag;
    msg
  }

  /** The registry afterwards and the outcome of one `FromDescription`. */
  datatype Decoded = Decoded(registry: Registry, built: Built)

  /** `FromDescription`: trim the type token, look it up in the registry and
      call its deserialisation function. The lookup inserts an empty entry
      for a tag it does not know, and such a tag (or one registered with no
      function) fails with a message naming it. */
  function FromDescription(reg: Registry, description: seq<string>, featureMap: FeatureMap, instanceCount: nat)
    : (d: Decoded)
    requires |description| >= 2
    ensures var tag := StringUtil.Trim(description[1]);
      && d.registry.entries.Keys == reg.entries.Keys + {tag}
      && (tag in reg.entries ==> d.registry == reg)
      && (tag !in reg.entries ==> d.registry.entries == reg.entries[tag := None])
      && (tag !in reg.entries || reg.entries[tag].None? ==>
            d.built == Built(Failure(UnknownTypeMessage(tag)), featureMap, instanceCount))
      && (tag in reg.entries && reg.entries[tag].Some? ==>
            d.built == reg.entries[tag].value(description, featureMap, instanceCount))
  {
    // The id token is trimmed too, but `Feature.cpp` never uses it.
    var tag := StringUtil.Trim(description[1]);
    var entries := if tag in reg.entries then reg.entries else reg.entries[tag := None];
    match entries[tag]
    case None => Decoded(Registry(entries), Built(Failure(UnknownTypeMessage(tag)), featureMap, instanceCount))
    case Some(create) => Decoded(Registry(entries), create(description, featureMap, instanceCount))
  }

  // ---------------------------------------------------------------------------
  // Properties of the registry and the line format
  // ---------------------------------------------------------------------------

  /** After registering `create` under the trimmed type token of a
      description, that description is handed to `create`, and the lookup
      leaves the registry alone. */
  lemma RegisteredTagDispatches(reg: Registry, create: Factory,
                                description: seq<string>, featureMap: FeatureMap, instanceCount: nat)
    requires |description| >= 2
    ensures var reg2 := RegisterDeserializeFunction(reg, StringUtil.Trim(description[1]), create);
      var d := FromDescription(reg2, description, featureMap, instanceCount);
      d.built == create(description, featureMap, instanceCount) && d.registry == reg2
  {
  }

  /** An unknown tag fails before any node is built, so the feature map and
      the instance count are left alone; the tag is listed by the registry
      from then on with no function, and a retry fails the same way without
      changing anything. */
  lemma UnknownTagFailsAndIsListed(reg: Registry, description: seq<string>, featureMap: FeatureMap, instanceCount: nat)
    requires |description| >= 2
    ensures var tag := StringUtil.Trim(description[1]);
      var d := FromDescription(reg, description, featureMap, instanceCount);
      tag !in reg.entries ==>
        && d.built.result.Failure?
        && d.built.featureMap == featureMap && d.built.instanceCount == instanceCount
        && tag in d.registry.entries && d.registry.entries[tag] == None
        && FromDescription(d.registry, description, featureMap, instanceCount) == d
  {
  }

  /** The tokens read back from a serialised line select the deserialisation
      function registered under the node's own type tag. */
  lemma SerializedLineSelectsOwnClass(g: Arena, r: Ref, reg: Registry, featureMap: FeatureMap)
    requires r in g && InputsPresent(g, r)
    requires forall i :: 0 <= i < |GetDescription(g, r)| ==> StringUtil.Free(GetDescription(g, r)[i], '\t')
    requires g[r].cls.name == [] || (!StringUtil.IsSpace(g[r].cls.name[0]) && !StringUtil.IsSpace(g[r].cls.name[|g[r].cls.name| - 1]))
    ensures var line := Serialize(g, r);
      var tokens := StringUtil.Split(line[..|line| - 1], '\t');
      && tokens == GetDescription(g, r)
      && |tokens| >= 2
      && StringUtil.Trim(tokens[1]) == g[r].cls.name
  {
    StringUtil.TrimUnpadded(g[r].cls.name);
  }
}
