/** A three-node pipeline: a raw-input node `A`, a node `B` reading `A`
    whose class declares a warm-up of 2 frames, and a node `C` reading `B`. */
module Scenario {
  import opened Wrappers
  import opened Features
  import opened Descriptions
  import opened FeatureProperties
  import StringUtil

  const InputClass := Class("InputFeature", 1, true, None)
  const WindowClass := Class("Window", 1, false, Some(2))
  const SumClass := Class("Sum", 1, false, None)

  /** The pipeline after construction: all three nodes clean with a cached
      value, `A` feeding `B` feeding `C`, with mirrored dependents. */
  function Pipeline(): Arena {
    map[
      0 := Node("A", InputClass, [], [], [1], false, [1.0]),
      1 := Node("B", WindowClass, [], [0], [2], false, [2.0]),
      2 := Node("C", SumClass, [], [1], [], false, [3.0])]
  }

  const DependentRank: map<Ref, nat> := map[0 := 2, 1 := 1, 2 := 0]
  const InputRank: map<Ref, nat> := map[0 := 0, 1 := 1, 2 := 2]

  lemma PipelineWellFormed()
    ensures Ranked(DependentEdges(Pipeline()), DependentRank)
    ensures Ranked(InputEdges(Pipeline()), InputRank)
    ensures FirstInputRanked(Pipeline(), InputRank)
  {
    var g := Pipeline();
    var d := DependentEdges(g);
    var i := InputEdges(g);
    assert d.Keys == {0, 1, 2} && i.Keys == {0, 1, 2};
    assert d[0] == [1] && d[1] == [2] && d[2] == [];
    assert i[0] == [] && i[1] == [0] && i[2] == [1];
  }

  /** `C` inherits `B`'s warm-up time of 2 frames. */
  lemma PipelineWarmup()
    ensures Ranked(InputEdges(Pipeline()), InputRank) && WarmupTime(Pipeline(), 2, InputRank) == 2
  {
    PipelineWellFormed();
    var g := Pipeline();
    assert g[2].inputs == [1];
    assert WarmupTime(g, 1, InputRank) == 2;
    assert BaseWarmupTime(g, 2, InputRank) == 2;
  }

  /** Following first inputs from `C` reaches the raw input `A`. */
  lemma PipelineFindsInput()
    ensures FirstInputRanked(Pipeline(), InputRank) && FindInputFeature(Pipeline(), 2, InputRank) == Some(0)
  {
    PipelineWellFormed();
    var g := Pipeline();
    assert FindInputFeature(g, 1, InputRank) == Some(0);
  }

  /** A node whose first input is a plain node without inputs and whose
      second input is the raw input `A`: the search gives up after the first
      input and reports no raw input. */
  lemma SearchIgnoresSecondInput()
    ensures var g := Pipeline()[3 := Node("D", SumClass, [], [], [], true, [])]
                               [4 := Node("E", SumClass, [], [3, 0], [], true, [])];
      && FirstInputRanked(g, InputRank[3 := 0][4 := 1])
      && g[g[4].inputs[1]].cls.isInputFeature
      && FindInputFeature(g, 4, InputRank[3 := 0][4 := 1]) == None
  {
  }

  /** `C` describes itself by its id, type tag and `B`'s id, on one line. */
  lemma PipelineDescription()
    ensures InputsPresent(Pipeline(), 2) && GetDescription(Pipeline(), 2) == ["C", "Sum", "B"]
    ensures InputsPresent(Pipeline(), 2) && Serialize(Pipeline(), 2) == "C\tSum\tB\n"
  {
    var g := Pipeline();
    assert InputsPresent(g, 2);
    var d := GetDescription(g, 2);
    assert d == ["C", "Sum", "B"];
    assert d[1..] == ["Sum", "B"] && d[1..][1..] == ["B"];
    assert StringUtil.Join(["Sum", "B"], '\t') == "Sum\tB";
    assert StringUtil.Join(d, '\t') == "C\tSum\tB";
  }

  /** A tab inside a token is written as is, so the line reads back with
      one field more than the description has tokens. */
  lemma TabInIdSplitsLine()
    ensures var g := map[0 := Node("a\tb", SumClass, [], [], [], true, [])];
      && InputsPresent(g, 0)
      && |GetDescription(g, 0)| == 2
      && var line := Serialize(g, 0);
         StringUtil.Split(line[..|line| - 1], '\t') == ["a", "b", "Sum"]
  {
    var g := map[0 := Node("a\tb", SumClass, [], [], [], true, [])];
    assert InputsPresent(g, 0);
    var d := GetDescription(g, 0);
    assert d == ["a\tb", "Sum"];
    assert "a\tb" == "a" + ['\t'] + "b";
    StringUtil.SplitSepAppend("a", "b", '\t');
    StringUtil.SplitSingle("a", '\t');
    StringUtil.SplitSingle("b", '\t');
    StringUtil.SplitSingle("Sum", '\t');
    assert d[1..] == ["Sum"] && d[1..][1..] == [];
    assert StringUtil.Split("a\tb", '\t') == ["a", "b"];
    assert StringUtil.SplitAll(["Sum"], '\t') == ["Sum"];
    assert StringUtil.SplitAll(d, '\t') == ["a", "b"] + ["Sum"];
  }

  /** In any arena where `a` has dependent `b` and `b` has dependent `c`,
      `Reset()` on `a` dirties all three, and so does a following
      `SetDirtyFlag(true)`. */
  lemma ResetDirtiesChain(g: Arena, rank: map<Ref, nat>, a: Ref, b: Ref, c: Ref)
    requires a in g && b in g && c in g && Ranked(DependentEdges(g), rank)
    requires g[a].dependents == [b] && g[b].dependents == [c]
    ensures var g2 := Reset(g, a, rank);
      && g2[a].dirty && g2[b].dirty && g2[c].dirty
      && Ranked(DependentEdges(g2), rank)
      && var h := SetDirtyFlag(g2, a, true, rank);
         h[a].dirty && h[b].dirty && h[c].dirty
  {
    var e := DependentEdges(g);
    assert IsPath(e, [a, b]);
    assert IsPath(e, [a, b, c]);
    ResetIsInvalidate(g, a, rank);
    SetDirtyFlagTrueCascades(g, a, rank);
    FlagsOnlyKeepsEdges(g, Reset(g, a, rank));
  }

  /** `Reset()` on `A` makes all three nodes dirty, and so does a following
      `SetDirtyFlag(true)`. */
  lemma ResetFromSourceDirtiesPipeline()
    ensures Ranked(DependentEdges(Pipeline()), DependentRank)
    ensures var g := Reset(Pipeline(), 0, DependentRank);
      && g[0].dirty && g[1].dirty && g[2].dirty
      && Ranked(DependentEdges(g), DependentRank)
      && var h := SetDirtyFlag(g, 0, true, DependentRank);
         h[0].dirty && h[1].dirty && h[2].dirty
  {
    PipelineWellFormed();
    ResetDirtiesChain(Pipeline(), DependentRank, 0, 1, 2);
  }
}
