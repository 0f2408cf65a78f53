# Feature graph and indented text writer, modelled in Dafny

This project models two components of the Embedded Learning Library.

The first is the **feature graph**, from `libraries/features/src/Feature.cpp`. Each feature node is a vertex of a directed acyclic graph. It has an id, a type tag, ordered inputs, dependents (back-edges), a dirty flag and a cached output vector. The model covers:

- lazy recomputation in `GetOutput`;
- push-based invalidation through `SetDirtyFlag` and `Reset`;
- the recursive `WarmupTime` and `FindInputFeature`;
- the description tokens and the tab-separated line written by `Serialize`;
- the registry of deserialisation functions that `FromDescription` dispatches through.

The second is **`IndentedTextWriter`**, from `libraries/utilities/src/IndentedTextWriter.cpp`. It is a small string builder that indents a line lazily, on the first write after a newline.

Files:

- `wrappers.dfy` — `Option` and `Result`. They stand in for null pointers and thrown exceptions.
- `string_util.dfy` — decimal rendering of counters (`std::to_string`) with a reader that inverts it, and whitespace trimming (`TrimString`). It also has joining and splitting of separator-delimited lines, with the round trip between the two.
- `features.dfy` — the node record, the arena and all node operations.
- `feature_properties.dfy` — the properties of those operations. Reachability along dependents is defined by paths, independently of the cascade.
- `descriptions.dfy` — description, serialisation, column names, the registry and `FromDescription`.
- `indented_text_writer.dfy` — the writer and its laws.
- `scenario.dfy` — a three-node pipeline `A → B → C`, worked through concretely.

Modelling choices:

- **Arena.** Nodes live in an arena `map<Ref, Node>`. Shared input pointers and dependent back-pointers become handles into it. The node's string `id` is a separate field, because the constructors taking an explicit id do not enforce uniqueness.
- **Termination.** The recursions of `Feature.cpp` (the dirty cascade, `Reset`, `WarmupTime` and `FindInputFeature`) terminate only on an acyclic graph. Each one therefore takes a `rank` map that witnesses acyclicity of the edges it follows, and uses it as its termination measure. `FindInputFeature` needs only the first-input chain to be acyclic.
- **Virtual calls.** `FeatureType()` is the class's `name`. `AddToDescription` is the node's `extras` tokens. The `dynamic_pointer_cast<InputFeature>` test is the class flag `isInputFeature`. A class that overrides `WarmupTime` is modelled by the value its override returns (`warmupOverride`). Otherwise the base implementation applies.
- **`ComputeOutput`.** It is a parameter `compute: (Arena, Ref) -> seq<real>`. `GetOutput` reports whether it ran, so the number of compute steps can be counted.
- **Process-wide statics.** The instance counter and the registry are threaded through explicitly: `Construct` takes and returns the count, and the registry is a value. A deserialisation function takes the feature map (passed by reference in `Feature.cpp`) and the count, and returns both as it leaves them.
- **The registry lookup quirk.** `FromDescription` looks up the registry with `operator[]`. A failed lookup therefore inserts an empty entry for the unknown tag. The model keeps this: the tag then maps to `None`, and `GetRegisteredTypes` lists it from then on.
- **`HasOutput`.** It is exactly "not dirty". `HasOutputWithoutCache` shows that it can hold while no output was ever computed.

Three behaviours of the code worth knowing, which the model keeps:

- `Reset` calls `SetDirtyFlag(true)`, which already cascades, and then resets each dependent again. `ResetIsInvalidate` proves that the end state is still exactly the cascade's.
- `FromDescription` looks up the type tag with `operator[]`, so an unknown tag gains a null entry in the registry.
- Nothing checks that a compute step returns as many values as the node has columns, and neither does the model.

## Model

| member | source | states |
|---|---|---|
| `Features.Construct` | libraries/features/src/Feature.cpp:26-48 | every constructor increments the instance count and leaves the node dirty, with no cache and no dependents; an explicit id is kept, and a default id is `f_` followed by the canonical decimal spelling of the prior count: digits that read back as the count, with no leading zero |
| `Features.DefaultIdsDistinct` | libraries/features/src/Feature.cpp:26-33 | default ids given at different instance counts never collide |
| `StringUtil.DecimalRoundTrip` | libraries/features/src/Feature.cpp:32 | the decimal text of the counter reads back as the counter |
| `StringUtil.NatToDecimal` | libraries/features/src/Feature.cpp:32 | the rendered counter is non-empty, all digits, with no leading zero, and is `"0"` exactly for 0 |
| `Features.AddInputFeature` | libraries/features/src/Feature.cpp:169-172 | appends the input at the end of the node's inputs and changes nothing else, in particular not the input's dependents |
| `Features.AddDependent` | libraries/features/src/Feature.cpp:146-149 | appends the dependent at the end of the node's dependents and changes nothing else |
| `FeatureProperties.ConnectKeepsMirrored` | libraries/features/src/Feature.cpp:146-172 | adding an input and then the matching dependent keeps every input edge mirrored by a dependent edge |
| `FeatureProperties.AddInputAloneUnmirrors` | libraries/features/src/Feature.cpp:169-172 | on every arena where `b` is not yet a dependent of `a`, adding `a` as an input of `b` alone leaves an input edge with no matching dependent edge |
| `Features.GetOutput` | libraries/features/src/Feature.cpp:65-74 | computes if and only if the node is dirty or its cache is empty; afterwards the node is clean and caches the returned vector; no other node changes; without a computation the arena and the returned vector are the old ones |
| `FeatureProperties.GetOutputMemoises` | libraries/features/src/Feature.cpp:65-74 | a second call with a non-empty cache and no invalidation in between does not compute, returns the same vector and leaves the arena alone |
| `FeatureProperties.FreshNodeComputesOnFirstGet` | libraries/features/src/Feature.cpp:26-74 | a freshly constructed node has no output, its first `GetOutput` computes, and then `HasOutput` holds |
| `FeatureProperties.HasOutputWithoutCache` | libraries/features/src/Feature.cpp:60-63 | `HasOutput` can hold with an empty cache (after `SetDirtyFlag(false)` on a fresh node), and `GetOutput` then still computes |
| `Features.Invalidate` | libraries/features/src/Feature.cpp:156-167 | the cascade changes only dirty flags, never clears one, and leaves the node dirty |
| `FeatureProperties.InvalidateMarksReachable` | libraries/features/src/Feature.cpp:156-167 | after the cascade from `r`, a node is dirty if and only if it was dirty before or is reachable from `r` through dependents |
| `Features.SetDirtyFlag` | libraries/features/src/Feature.cpp:156-167 | changes only flags and sets the node's own flag to the argument; with `false`, every other node is untouched |
| `FeatureProperties.SetDirtyFlagTrueCascades` | libraries/features/src/Feature.cpp:156-167 | `SetDirtyFlag(true)` dirties exactly the node and its transitive dependents, on top of the flags already set, and changes nothing but flags |
| `FeatureProperties.SetDirtyFlagFalseIsLocal` | libraries/features/src/Feature.cpp:156-167 | `SetDirtyFlag(false)` clears the node's flag only, whatever its dependents, and keeps its cache |
| `Features.Reset` | libraries/features/src/Feature.cpp:76-83 | `Reset` changes only flags and leaves the node dirty |
| `FeatureProperties.ResetIsInvalidate` | libraries/features/src/Feature.cpp:76-83 | `Reset` ends in exactly the state `SetDirtyFlag(true)` produces |
| `Features.HasOutput` | libraries/features/src/Feature.cpp:60-63 | true exactly when the dirty flag is clear, whether or not an output is cached (`HasOutputWithoutCache` shows the gap) |
| `Features.WarmupTime` | libraries/features/src/Feature.cpp:85-93 | the virtual dispatch: a class override's value when there is one; otherwise 0 without inputs, and else the largest of the inputs' dispatched warm-up times (at least each, equal to one) |
| `Features.BaseWarmupTime` | libraries/features/src/Feature.cpp:85-93 | the base warm-up time is 0 without inputs; otherwise it is at least every input's warm-up time and equal to one of them, so it is their maximum |
| `Features.MaxWarmup` | libraries/features/src/Feature.cpp:87-92 | the left-to-right running maximum from 0 over a list of inputs is their largest warm-up time, or 0 for none |
| `Features.FindInputFeature` | libraries/features/src/Feature.cpp:194-210 | returns none for a node without inputs; anything returned is an input sentinel of the arena |
| `FeatureProperties.FindInputFeatureSound` | libraries/features/src/Feature.cpp:194-210 | a returned node ends a chain of first inputs from the node whose intermediate nodes are not sentinels |
| `FeatureProperties.FindInputFeatureComplete` | libraries/features/src/Feature.cpp:194-210 | whenever the first-input chain reaches a sentinel, that sentinel is what is returned |
| `FeatureProperties.FindInputFeatureIgnoresLaterInputs` | libraries/features/src/Feature.cpp:194-210 | the result depends only on sentinel tags and first inputs; inputs at index 1 or beyond are never inspected |
| `Descriptions.GetDescription` | libraries/features/src/Feature.cpp:95-113 | the tokens are the id, the type tag, the input ids in input order (token `2+i` is input `i`'s id), then the subclass tokens |
| `Descriptions.Serialize` | libraries/features/src/Feature.cpp:174-190 | the line ends in one newline; splitting the rest at tabs gives, for every description, the fields of each token in order, so a token holding a tab comes back as several fields; when no token holds a tab it gives back exactly the description tokens |
| `StringUtil.SplitJoinAll` | libraries/features/src/Feature.cpp:176-188 | splitting tokens joined by single separators gives the fields of each token in turn, whatever the tokens contain |
| `StringUtil.SplitJoin` | libraries/features/src/Feature.cpp:176-188 | tokens joined by single separators split back into the same tokens when none contains the separator |
| `Descriptions.SerializedLineSelectsOwnClass` | libraries/features/src/Feature.cpp:174-190 | the tokens read back from a node's line give its description, and its type token trims to the node's own type tag |
| `Descriptions.GetColumnDescriptions` | libraries/features/src/Feature.cpp:115-124 | one name per column, each the type tag, an underscore and the canonical decimal spelling of the column index: digits that read back as the index, with no leading zero |
| `Descriptions.ColumnDescriptionsDistinct` | libraries/features/src/Feature.cpp:115-124 | no two columns share a name |
| `Descriptions.RegisterDeserializeFunction` | libraries/features/src/Feature.cpp:141-144 | inserts or overwrites the tag's entry with the function; other entries are unchanged |
| `Descriptions.GetRegisteredTypes` | libraries/features/src/Feature.cpp:131-139 | lists every registered tag exactly once and nothing else |
| `StringUtil.Trim` | libraries/features/src/Feature.cpp:214-215 | the trimmed token is a contiguous piece of the token with no whitespace at either end, and everything cut off is whitespace |
| `Descriptions.FromDescription` | libraries/features/src/Feature.cpp:212-224 | looks up the trimmed type token; an unknown tag gains an empty registry entry; an unknown or empty entry fails with exactly the unknown-type message for the tag and leaves the feature map and the instance count unchanged; a registered function gets the description, the feature map and the count, and its outcome, updated map and count are returned as they are |
| `Descriptions.UnknownTypeMessage` | libraries/features/src/Feature.cpp:220 | the error message is the fixed prefix, then the type tag, then a closing quote |
| `Descriptions.RegisteredTagDispatches` | libraries/features/src/Feature.cpp:141-224 | after registering a function under a tag, a description with that type token goes to that function and the registry stays as it was; the function's result, updated feature map and instance count are returned as they are |
| `Descriptions.UnknownTagFailsAndIsListed` | libraries/features/src/Feature.cpp:212-224 | an unknown tag fails without touching the feature map or the instance count, is listed by the registry afterwards with no function, and a retry fails the same way without further change |
| `Scenario.PipelineWarmup` | libraries/features/src/Feature.cpp:85-93 | in `A → B → C`, with `B` overriding its warm-up to 2, `C`'s warm-up time is 2 |
| `Scenario.PipelineFindsInput` | libraries/features/src/Feature.cpp:194-210 | in `A → B → C`, the search from `C` finds the raw input `A` |
| `Scenario.SearchIgnoresSecondInput` | libraries/features/src/Feature.cpp:194-210 | a node whose first input leads to no sentinel finds none, even though its second input is a sentinel |
| `Scenario.PipelineDescription` | libraries/features/src/Feature.cpp:95-190 | `C`'s description is `C, Sum, B`, and its line is `C\tSum\tB\n` |
| `Scenario.TabInIdSplitsLine` | libraries/features/src/Feature.cpp:174-190 | a node whose id holds a tab is written with the tab as is, and its line reads back as three fields where the description has two tokens |
| `Scenario.ResetDirtiesChain` | libraries/features/src/Feature.cpp:76-83 | along a dependent chain `a → b → c`, `Reset` on `a` dirties all three, and so does a following `SetDirtyFlag(true)` |
| `Scenario.ResetFromSourceDirtiesPipeline` | libraries/features/src/Feature.cpp:76-83 | `Reset` on `A`, then `SetDirtyFlag(true)`, leaves `A`, `B` and `C` dirty |
| `IndentedTextWriter.NewWriter` | libraries/utilities/src/IndentedTextWriter.cpp:14-20 | a new writer has an empty buffer, no indentation and the four-space tab string |
| `IndentedTextWriter.CopyWriter` | libraries/utilities/src/IndentedTextWriter.cpp:22-26 | a copy keeps the tab string and the indentation depth but starts with an empty buffer |
| `IndentedTextWriter.WriteNewLine` | libraries/utilities/src/IndentedTextWriter.cpp:28-33 | appends exactly one newline and marks the next write as the start of a line |
| `IndentedTextWriter.Write` | libraries/utilities/src/IndentedTextWriter.cpp:35-88 | at the start of a line, appends the indentation and then the text; otherwise only the text; either way the line is started afterwards and the depth is unchanged |
| `IndentedTextWriter.WriteRaw` | libraries/utilities/src/IndentedTextWriter.cpp:90-98 | appends the requested number of tab strings (only if positive) and then the text; the depth and the start-of-line flag are unchanged |
| `IndentedTextWriter.IncreaseIndent` | libraries/utilities/src/IndentedTextWriter.cpp:100-104 | adds one to the depth and touches nothing else |
| `IndentedTextWriter.DecreaseIndent` | libraries/utilities/src/IndentedTextWriter.cpp:106-113 | subtracts one only from a positive depth, never going below zero, and touches nothing else |
| `IndentedTextWriter.DecreaseUndoesIncrease` | libraries/utilities/src/IndentedTextWriter.cpp:100-113 | decreasing after increasing restores the writer |
| `IndentedTextWriter.IncreaseUndoesDecreaseIffPositive` | libraries/utilities/src/IndentedTextWriter.cpp:100-113 | increasing after decreasing restores the writer if and only if the depth was positive |
| `IndentedTextWriter.WriteIndent` | libraries/utilities/src/IndentedTextWriter.cpp:120-127 | at the start of a line, appends the current depth's worth of tab strings and ends the start-of-line state; otherwise changes nothing |
| `IndentedTextWriter.WriteIndentCount` | libraries/utilities/src/IndentedTextWriter.cpp:129-135 | appends the given number of tab strings, or nothing for a count that is not positive; the other fields are unchanged |
| `IndentedTextWriter.Repeat` | libraries/utilities/src/IndentedTextWriter.cpp:131-134 | the loop's output has length count times the tab string's length |
| `IndentedTextWriter.RepeatBlock` | libraries/utilities/src/IndentedTextWriter.cpp:131-134 | for every `k` below the count, the `k`-th block of the loop's output is the tab string itself, so the output is made of copies of it |
| `IndentedTextWriter.WriteIndentCountAdds` | libraries/utilities/src/IndentedTextWriter.cpp:129-135 | indenting by `a` and then by `b` equals indenting by `a + b` |
| `IndentedTextWriter.WriteConcat` | libraries/utilities/src/IndentedTextWriter.cpp:35-40 | two writes in a row equal one write of the joined text |
| `IndentedTextWriter.OnlyFirstWriteAfterNewLineIndented` | libraries/utilities/src/IndentedTextWriter.cpp:28-40 | after a newline, the first write is indented by the current depth and the second is not |
| `IndentedTextWriter.IndentIsEmittedLazily` | libraries/utilities/src/IndentedTextWriter.cpp:100-127 | a depth change between a newline and the next write applies to that line |
| `IndentedTextWriter.WriteRawIgnoresDepth` | libraries/utilities/src/IndentedTextWriter.cpp:90-98 | the text `WriteRaw` appends does not depend on the writer's depth |

## Left out

- `ComputeOutput` and the numeric kernels of concrete subclasses are not modelled. The compute step is an opaque function, and its vector of doubles is a `seq<real>` on which no arithmetic happens. A subclass's compute step may call `GetOutput` on its inputs, which would update their caches. The model treats the compute step as free of side effects.
- `Features.WarmupTime`: a class's override is modelled as returning a fixed number. What an override computes is subclass code that is not part of this model.
- `Id()`, `NumColumns()`, `IsDirty()` and `GetInputFeatures()` are plain field reads of the node record and have no separate members.
- `shared_ptr` ownership and lifetime are not modelled. Nor are null pointers among inputs or dependents: the model requires every edge to name a node of the arena, where `Feature.cpp` would dereference a null pointer.
- The instance counter is an `int` in `Feature.cpp`. Its overflow after 2^31 constructions is not modelled.
- The concrete deserialisation functions, `InputFeature` and the loop that fills the feature map line by line are not part of this model. `FromDescription` only dispatches to a registered function, so rebuilding a whole graph from its lines is not modelled. What is modelled is the token round trip of one line and the dispatch to the node's own type tag.
- `FromDescription` also trims the id token but never uses it, so the model drops it. `Feature.cpp` indexes tokens 0 and 1 without checking, so the model requires at least two tokens.
- `TrimString` lives in `StringUtil`, which is not part of this model. It is modelled as removing the characters C's `isspace` accepts from both ends.
- `GetRegisteredTypes` returns the tags in the hash table's unspecified order. The model fixes no order either.
- The writer's floating-point output is not modelled: `Write<double>`, `SetPrecision` and the precision-17 stream setting. `Write` of `int`, `int64_t` and `uint8_t` appends text formatted by `std::ostream`. The model treats that text as an opaque string passed to `Write`.
- `std::endl` also flushes the stream. Flushing has no effect on the buffer's contents and is not modelled.
- `IndentedTextWriter.h` is not part of this model. It sets the initial `needsIndent`, which the constructors take as the parameter `startOfLine`. The initial indentation depth is taken to be 0.
- The writer's depth is declared in `IndentedTextWriter.h`, which is not part of this model; `IndentedTextWriter.cpp` passes it to `WriteIndent(int)`. The model keeps it as a `nat` and does not model any overflow.
