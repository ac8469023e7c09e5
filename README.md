# Dialogue editor core, modelled in Dafny

This project models the core of a Unity dialogue-editor plugin (C#). It covers:

- **The dialogue graph.** Nodes are the NPC's lines. An *immediate* node has one outgoing edge; a *regular* node has a list of attached options. Options are the player's answers and each has one edge. Condition nodes choose a success or a failure edge. Every edge is a pair (id, kind), where the kind is Exit, Node, Option or Condition, and the exit edge is (-1, Exit).
- **The runtime walker of a `Dialogue`.** A cursor starts at the start node. `Next()` follows an immediate node's edge through any conditions, and `Next(option)` does the same for the edge of the chosen answer. `CurrentNodeOptions` lists the answers that may be shown now. `ConditionChainTest` evaluates an option's entry condition chain.
- **Deletion and lookup in the dialogue's lists.** This includes the renumbering done after a delete, and the rebuilding of the map of option foldouts the editor keeps.
- **The node editor's structural edits.** These are:
  - creating a node or option window;
  - the three attach paths (node to node, node to option, option to node);
  - removing an attached option;
  - the quote shown for an option's text;
  - the cascading renumber when a node window is deleted, which updates the window list, the kind and type-id lists, the per-kind index lists, the foldouts, the node ids and every edge that pointed at a node.
- **The randomizer condition.** A drawn integer in [MinValue, MaxValue] passes when it is greater than ValueChecked.
- **The edit-time clamping rules.** These are the randomizer's inspector fields and the configuration window's three integer settings.

Every entity whose fields the code updates in place is a `class`. Its `Data()` function gives its state as a datatype value. A pure transition function on that value is the one definition of each update, and the class methods apply it in place and are proved to do so. Walks over the graph are functions on those values. The methods that run the loops are proved equal to them.

Randomness is an input: `draws(k)` is the value the k-th condition evaluation draws, and every walk returns the index of the next unused draw. The code has unbounded `while` loops with no cycle check. The model runs them under a ghost rank that strictly decreases along every edge the loop follows. `Conditions.Ranked` serves the entry-condition chain test, which follows every edge whose id is not -1, Exit edges included. `Conditions.ResolveRanked` serves `Next()` and `Next(option)`, which follow Condition edges only.

Exceptions are values: `Result`, `Outcome` and `Maybe` carry an `Error` naming the exception type.

Files:

- `targets.dfy`: kinds, edges, errors and kind names.
- `decimal.dfy`: integer to decimal text.
- `conditions.dfy`: condition nodes, the randomizer, chain walks.
- `dialogue.dfy`: nodes, options, the dialogue and its editor information.
- `node_editor.dfy`: the editor's edits and their bookkeeping invariant.
- `configuration.dfy`: the configuration window's integer settings.
- `condition_drawers.dfy`: the randomizer's inspector.

## Model

| member | source | states |
|---|---|---|
| Targets.NodeTypeName | Assets/Scripts/Dialogue.cs:580-601 | The display name of each kind is read back as that kind, so distinct kinds get distinct names |
| Targets.NodeTypeNameBijective | Assets/Scripts/Dialogue.cs:580-601 | A string is recognised as a kind name exactly when some kind is displayed as it |
| Decimal.IntToString | Assets/Scripts/Dialogue.cs:339 | The decimal rendering of any integer, including negative numbers, parses back to that integer |
| Decimal.ParseNatToString | Assets/Scripts/Dialogue.cs:339 | The digits of a natural number, without leading zeros, parse back to it |
| Conditions.RandomizerCondition.constructor | Assets/Scripts/ConditionNodeExtensions.cs:37-42 | A new evaluator has MinValue, MaxValue and ValueChecked all 0 |
| Conditions.ThresholdAtMaxNeverPasses | Assets/Scripts/ConditionNodeExtensions.cs:43-49 | When ValueChecked >= MaxValue, no draw in [MinValue, MaxValue] passes |
| Conditions.ThresholdBelowMinAlwaysPasses | Assets/Scripts/ConditionNodeExtensions.cs:43-49 | When ValueChecked < MinValue, every draw in [MinValue, MaxValue] passes |
| Conditions.IntRange | Assets/Scripts/ConditionNodeExtensions.cs:45 | The set of values `Random.Range(lo, hi + 1)` can draw is exactly lo..hi inclusive |
| Conditions.IntRangeSize | Assets/Scripts/ConditionNodeExtensions.cs:45 | The inclusive range holds hi - lo + 1 values, or none when hi < lo |
| Conditions.PassingDrawCount | Assets/Scripts/ConditionNodeExtensions.cs:43-49 | The number of passing draws is 0 at or above the maximum, the whole range below the minimum, and MaxValue - ValueChecked in between |
| Conditions.RandomizerScenario | Assets/Scripts/ConditionNodeExtensions.cs:43-49 | With range 0..10 and threshold 5, draw 7 passes and draw 3 fails |
| Conditions.RandomizerData.Passes | Assets/Scripts/ConditionNodeExtensions.cs:43-49 | The test passes exactly when the drawn value is strictly greater than ValueChecked |
| Conditions.CondData.Select | Assets/Scripts/Dialogue.cs:544-557 | The verdict is the condition's test, and the chosen edge is the success edge on a pass and the failure edge otherwise |
| Conditions.SelectFollowsVerdict | Assets/Scripts/Dialogue.cs:544-557 | `ConditionTest(out, out)` selects the success edge exactly when the test passes and the failure edge exactly when it fails |
| Conditions.NoEvaluatorFails | Assets/Scripts/ConditionNodeExtensions.cs:9-13 | A condition without a randomizer fails and selects its failure edge |
| Conditions.ConditionNode.constructor | Assets/Scripts/Dialogue.cs:499-512 | A new condition has id 0, both edges at the exit and no evaluator |
| Conditions.ConditionNode.SetConditionID | Assets/Scripts/Dialogue.cs:514 | The id becomes the value if it is non-negative and is otherwise unchanged; nothing else changes |
| Conditions.ConditionNode.SetSuccessTarget | Assets/Scripts/Dialogue.cs:559-563 | Only the success edge changes, to the given pair, with no validation |
| Conditions.ConditionNode.SetFailureTarget | Assets/Scripts/Dialogue.cs:565-569 | Only the failure edge changes, to the given pair, with no validation |
| Conditions.ConditionNode.SetRandomizerCondition | Assets/Scripts/ConditionNodeExtensions.cs:15-27 | A new evaluator is allocated only when there is none; the existing one is returned otherwise; min, max and the threshold are stored verbatim, without clamping, and the stored evaluator is returned |
| Conditions.ConditionsData | Assets/Scripts/Dialogue.cs:23 | The state of a list of conditions, position by position |
| Conditions.ChainTest | Assets/Scripts/Dialogue.cs:141-152 | A successful chain test evaluates at least one condition, so it advances the draw index; it fails only on an out-of-range id or an access violation |
| Conditions.Resolve | Assets/Scripts/Dialogue.cs:210-220 | A successful walk ends at an edge that is not a condition and never rewinds the draws; it fails only on a condition id outside the list |
| Conditions.RankedResolveRanked | Assets/Scripts/Dialogue.cs:210-220 | Any rank under which the chain test terminates also makes the `Next` loops terminate |
| Conditions.ExitEdgeLoopsOnlyTheChain | Assets/Scripts/Dialogue.cs:141-152 | A condition whose two edges are `(0, Exit)` cannot be ranked for the chain test, which follows id 0 back to itself, yet `Next` resolves it in one evaluation |
| Conditions.ResolveTerminates | Assets/Scripts/Dialogue.cs:210-220 | Following condition edges stops at an edge that is not a condition and evaluates at most rank + 1 conditions; the walk fails only on a condition id outside the list |
| Conditions.ResolveReachesNodeOrExit | Assets/Scripts/Dialogue.cs:210-220 | In a graph of legal, in-range edges, the walk always ends at a node edge or at the exit edge |
| Conditions.ChainTestVerdictIsLast | Assets/Scripts/Dialogue.cs:141-152 | A successful chain test returns the verdict of the condition it evaluated last (`LastLink`, reached by following the same edges), evaluated with the last draw used, and that condition chose an edge with id -1; it fails only on an out-of-range id or a non-condition edge |
| Dialogues.CustomID | Assets/Scripts/Dialogue.cs:333-346 | A set custom id is returned as is; an empty one reads "Node " followed by the decimal node id |
| Dialogues.NodeSettersKeepInvariant | Assets/Scripts/Dialogue.cs:389-405 | The node setters keep every edge legal and the id non-negative |
| Dialogues.ModeSwitchKeepsRepresentations | Assets/Scripts/Dialogue.cs:354-387 | An immediate node shows no option list; making a node immediate or regular flips only the flag and keeps the edge and the stored options |
| Dialogues.RegularNodeIgnoresTargetSetters | Assets/Scripts/Dialogue.cs:389-405 | Both target setters leave a regular node unchanged |
| Dialogues.DialogueNode.constructor | Assets/Scripts/Dialogue.cs:312-351 | A new node is regular, with id 0, the exit edge and no options |
| Dialogues.DialogueNode.SetNodeID | Assets/Scripts/Dialogue.cs:331 | The id setter ignores negative values and changes nothing else |
| Dialogues.DialogueNode.SetOptionsAttached | Assets/Scripts/Dialogue.cs:365-368 | The stored option list becomes the given list and nothing else changes |
| Dialogues.DialogueNode.ClearOptionsAttached | Assets/Scripts/Dialogue.cs:371-374 | The stored option list becomes empty and nothing else changes |
| Dialogues.DialogueNode.RevertToRegularNode | Assets/Scripts/Dialogue.cs:379-382 | Only the immediate flag is cleared |
| Dialogues.DialogueNode.MakeImmediateNode | Assets/Scripts/Dialogue.cs:384-387 | Only the immediate flag is set |
| Dialogues.DialogueNode.SetImmediateNodeTarget | Assets/Scripts/Dialogue.cs:389-396 | The edge changes only on an immediate node, and only to a node or condition with a non-negative id |
| Dialogues.DialogueNode.SetImmediateNodeTargetExit | Assets/Scripts/Dialogue.cs:398-405 | An immediate node's edge becomes (-1, Exit); a regular node is unchanged |
| Dialogues.OptionSettersKeepInvariant | Assets/Scripts/Dialogue.cs:473-486 | The option setters keep the edge legal and the id non-negative |
| Dialogues.DisplayCheckGates | Assets/Scripts/Dialogue.cs:444-453 | A visit-once option that was visited is never shown; without an entry condition the answer is `!VisitOnce or not visited`, using no draw; otherwise it is the verdict of the entry condition chain |
| Dialogues.DialogueOption.constructor | Assets/Scripts/Dialogue.cs:416-438 | A new option has id 0, the exit edge, is unvisited and has no entry condition |
| Dialogues.DialogueOption.SetOptionID | Assets/Scripts/Dialogue.cs:432 | The id setter ignores negative values and changes nothing else |
| Dialogues.DialogueOption.Visit | Assets/Scripts/Dialogue.cs:455-459 | The option text is returned and only the visited flag is set |
| Dialogues.DialogueOption.SetEntryCondition | Assets/Scripts/Dialogue.cs:465-469 | The entry condition is stored, and the flag is set exactly when it is non-null |
| Dialogues.DialogueOption.ClearEntryCondition | Assets/Scripts/Dialogue.cs:471 | The entry condition is removed and its flag cleared |
| Dialogues.DialogueOption.EntryConditionSet | Assets/Scripts/Dialogue.cs:463 | The flag holds exactly when the option's state has an entry condition |
| Dialogues.DialogueOption.SetNextNodeExit | Assets/Scripts/Dialogue.cs:473-477 | The edge becomes (-1, Exit) |
| Dialogues.DialogueOption.SetNext | Assets/Scripts/Dialogue.cs:479-486 | The edge changes only to a node or condition with a non-negative id |
| Dialogues.DialogueOption.CanDisplay | Assets/Scripts/Dialogue.cs:444-453 | The shown flag and the draws used are those of the display rule, evaluated on the current state of the dialogue's conditions |
| Dialogues.ImmediateStepNeverFinishes | Assets/Scripts/Dialogue.cs:198-230 | On a legal graph, `Next()` from an immediate node succeeds exactly when the walk ends at a node, and moves the cursor there; a walk ending at the exit raises "Illegal node type" |
| Dialogues.OptionStepFinishesAtExit | Assets/Scripts/Dialogue.cs:237-260 | On a legal graph, `Next(option)` from a regular node always succeeds; the cursor becomes -1 exactly when the answer's walk ends at the exit, and is otherwise the node the walk ends at |
| Dialogues.VisibleOptions | Assets/Scripts/Dialogue.cs:177-193 | The listing never holds more options than are attached, and it never rewinds the draws |
| Dialogues.VisibleOptionsStep | Assets/Scripts/Dialogue.cs:183-189 | The listing checks the first attached option with the current draws and lists the rest with the draws that follow |
| Dialogues.VisibleOptionsSubsequence | Assets/Scripts/Dialogue.cs:177-193 | The listed options are a sub-sequence of the attached list, in order |
| Dialogues.VisibleOptionsUnvisited | Assets/Scripts/Dialogue.cs:177-193 | Every listed option exists and is not a visited visit-once option |
| Dialogues.VisibleOptionsAreFiltered | Assets/Scripts/Dialogue.cs:177-193 | The listed options are an order-preserving sub-sequence of the attached ones, each existing and not used up |
| Dialogues.VisibleOptionsWithoutConditions | Assets/Scripts/Dialogue.cs:177-193 | Without entry conditions, the listing is exactly the attached options not used up, and no draw is consumed |
| Dialogues.Pick | Assets/Scripts/Dialogue.cs:185-187 | Position j of the result is the option at the j-th listed index |
| Dialogues.DeleteAsWritten | Assets/Scripts/Dialogue.cs:58-69 | With the guard as written, every in-range index passes untouched; the call fails exactly when the index is past the end, and then only with ArgumentOutOfRange |
| Dialogues.DeleteAsWrittenNeverDeletes | Assets/Scripts/Dialogue.cs:58-69 | With the guard as written, deleting any existing entry does nothing and raises nothing |
| Dialogues.DeleteAsWrittenCounterexample | Assets/Scripts/Dialogue.cs:101-112 | Deleting entry 1 of 3 does nothing; asking for entry 4 of 3 raises an ArgumentOutOfRange error |
| Dialogues.RenumberOptions | Assets/Scripts/Dialogue.cs:64-67 | From the given position on, each option's id becomes its position; earlier options and all other state are kept |
| Dialogues.RenumberNodesFrom | Assets/Scripts/Dialogue.cs:107-110 | From the given position on, each node's id becomes its position; earlier nodes are unchanged |
| Dialogues.RenumberConditions | Assets/Scripts/Dialogue.cs:160-163 | From the given position on, each condition's id becomes its position; the edges and evaluators are kept |
| Dialogues.Dialogue.constructor | Assets/Scripts/Dialogue.cs:14-26 | A new dialogue starts at node 0 with empty lists |
| Dialogues.Dialogue.GetOption | Assets/Scripts/Dialogue.cs:51-56 | The option at `id` exactly when 0 <= id < Count; none otherwise |
| Dialogues.Dialogue.GetNode | Assets/Scripts/Dialogue.cs:94-99 | The node at `id` exactly when 0 <= id < Count; none otherwise |
| Dialogues.Dialogue.GetCondition | Assets/Scripts/Dialogue.cs:134-139 | The condition at `id` exactly when 0 <= id < Count; none otherwise |
| Dialogues.Dialogue.DeleteOption | Assets/Scripts/Dialogue.cs:58-69 | The corrected delete: an in-range entry is removed, the entries after it get their position as id, the rest are untouched, and ids equal to positions stay so; an out-of-range index changes nothing |
| Dialogues.Dialogue.DeleteNode | Assets/Scripts/Dialogue.cs:101-112 | The corrected delete for nodes, with the same contract as for options |
| Dialogues.Dialogue.DeleteCondition | Assets/Scripts/Dialogue.cs:154-165 | The corrected delete for conditions: the same contract, and every condition keeps its edges and evaluator |
| Dialogues.Dialogue.ConditionChainTest | Assets/Scripts/Dialogue.cs:141-152 | The do/while loop computes the chain test over the current conditions, with the same verdict, error and draws used |
| Dialogues.Dialogue.StartDialogue | Assets/Scripts/Dialogue.cs:168-172 | The cursor is set to the start node |
| Dialogues.Dialogue.DialogueFinished | Assets/Scripts/Dialogue.cs:174 | The dialogue has finished exactly when the cursor holds the exit id -1 |
| Dialogues.Dialogue.CurrentNode | Assets/Scripts/Dialogue.cs:175 | The node under the cursor when the cursor is in range, otherwise an ArgumentOutOfRange error |
| Dialogues.Dialogue.CurrentNodeOptions | Assets/Scripts/Dialogue.cs:177-193 | Succeeds or fails as the listing rule does; the objects returned are the options at the listed indices; an immediate node raises a null reference |
| Dialogues.Dialogue.DisplayableOptions | Assets/Scripts/Dialogue.cs:183-191 | The loop over an attached list returns the options the listing rule selects, in order |
| Dialogues.Dialogue.Next | Assets/Scripts/Dialogue.cs:198-230 | The cursor moves as the immediate step prescribes; on any error (a missing or regular node, a walk ending at the exit) it stays put |
| Dialogues.Dialogue.NextByOption | Assets/Scripts/Dialogue.cs:237-260 | The cursor becomes the id the chosen answer's walk ends at; on an immediate node or an out-of-range id it stays put. After a successful move the dialogue has finished exactly when the walk ended at an edge with id -1 |
| Dialogues.InnerFoldoutsComplete | Assets/Scripts/Dialogue.cs:299-304 | For a list without repeats, each attached option gets a closed foldout and the earlier entries are kept |
| Dialogues.FoldoutsFromComplete | Assets/Scripts/Dialogue.cs:291-307 | When regular node ids are distinct and option lists have no repeats, the rebuild succeeds; its keys are exactly the regular node ids, each holding a closed foldout for exactly that node's options |
| Dialogues.OptionFoldouts | Assets/Scripts/Dialogue.cs:299-304 | The inner loop builds one node's foldouts and stops at the first repeated option |
| Dialogues.DialogueEditorInfo.constructor | Assets/Scripts/Dialogue.cs:277-289 | Empty lists, zero counters and no foldouts |
| Dialogues.DialogueEditorInfo.RestoreFoldouts | Assets/Scripts/Dialogue.cs:291-307 | The foldouts are cleared and rebuilt from the regular nodes, in order, as the rebuild rule states; a repeated key raises and keeps what was added |
| NodeEditors.EditorConfigurationData.constructor | Assets/Editor/NodeEditor.cs:982-984 | The integer settings start at 49, 50 and 150 |
| NodeEditors.CreateNodeKeepsConsistent | Assets/Editor/NodeEditor.cs:354-366 | Creating a node keeps the editor's bookkeeping consistent; the new node's id is the old node count and its index entry is the new window, of kind Node with that id |
| NodeEditors.CreateOptionKeepsConsistent | Assets/Editor/NodeEditor.cs:368-380 | The same for options |
| NodeEditors.FindIndexAbove | Assets/Editor/NodeEditor.cs:795 | The first position holding a value above v, or -1 when there is none |
| NodeEditors.ShiftOptionsIndexesDecrementsAbove | Assets/Editor/NodeEditor.cs:795-798 | On increasing window indices, the loop decrements exactly the entries above the deleted window |
| NodeEditors.NodeIndexesAround | Assets/Editor/NodeEditor.cs:790-793 | The node windows before the deleted node's entry lie before its window, and those after it lie after |
| NodeEditors.DeletedNodeWindowIndex | Assets/Editor/NodeEditor.cs:771 | The deleted window's type id is a valid entry of the node index list, and that entry names the window |
| NodeEditors.DeleteKeepsNodeIndexMap | Assets/Editor/NodeEditor.cs:767-793 | After the removals and shifts, every node index entry still names a node window carrying that type id |
| NodeEditors.DeleteKeepsNodeBackMap | Assets/Editor/NodeEditor.cs:767-793 | After the removals and shifts, every remaining node window is listed at its type id |
| NodeEditors.DeleteKeepsNodeOrder | Assets/Editor/NodeEditor.cs:790-793 | The node index list stays increasing |
| NodeEditors.DeleteKeepsNodeMaps | Assets/Editor/NodeEditor.cs:767-793 | The node index list and the type ids stay mutually inverse and in window order |
| NodeEditors.DeleteKeepsOptionIndexMap | Assets/Editor/NodeEditor.cs:767-798 | After deleting a node window, every option index entry still names an option window carrying that type id |
| NodeEditors.DeleteKeepsOptionBackMap | Assets/Editor/NodeEditor.cs:767-798 | Every option window is still listed at its type id |
| NodeEditors.DeleteKeepsOptionOrder | Assets/Editor/NodeEditor.cs:795-798 | The option index list stays increasing |
| NodeEditors.DeleteKeepsOptionMaps | Assets/Editor/NodeEditor.cs:767-798 | The option index list and the type ids stay mutually inverse and in window order |
| NodeEditors.DeleteKeepsWindowMaps | Assets/Editor/NodeEditor.cs:765-842 | Deleting a node window keeps all the window bookkeeping consistent, with one node fewer and the same number of options |
| NodeEditors.DeleteKeepsIdsAndEdges | Assets/Editor/NodeEditor.cs:800-860 | If node ids equal positions and node edges name existing nodes before the delete, both hold after it |
| NodeEditors.DeleteKeepsConsistent | Assets/Editor/NodeEditor.cs:765-863 | Deleting a node window keeps the whole editor state consistent: the bookkeeping, ids equal to positions, edges in range, and foldout keys that are node ids |
| NodeEditors.RenumberNodeEffect | Assets/Editor/NodeEditor.cs:800-826 | Ids above the deleted one drop by one; an immediate node aimed above it is re-aimed one lower; one aimed at it becomes regular; everything else is untouched |
| NodeEditors.RedirectOptionEffect | Assets/Editor/NodeEditor.cs:844-860 | An option aimed above the deleted node is re-aimed one lower; one aimed at it gets the exit edge; the rest of the option is untouched |
| NodeEditors.RekeyAsWritten | Assets/Editor/NodeEditor.cs:829-842 | The re-key as written, in the given enumeration order, raises no error other than a missing or a duplicate key |
| NodeEditors.RekeyAsWrittenCollides | Assets/Editor/NodeEditor.cs:829-842 | With foldouts for nodes 0, 2 and 3, deleting node 1 raises a duplicate key when keys are enumerated as 0, 3, 2 |
| NodeEditors.RekeyAsWrittenAscending | Assets/Editor/NodeEditor.cs:829-842 | The same deletion re-keys as intended when keys come in ascending order |
| NodeEditors.RekeyAsWrittenSorted | Assets/Editor/NodeEditor.cs:829-842 | For every foldout map whose keys are enumerated in ascending order, with the deleted node's entry already removed, the re-key as written succeeds and yields exactly the intended map: entries below the deleted node kept, entries above it moved one lower |
| NodeEditors.RekeyAsWrittenFrom | Assets/Editor/NodeEditor.cs:829-842 | Midway through an ascending enumeration, the keys already moved together with the pending entries re-key to the moved keys plus the intended shift of the pending ones |
| NodeEditors.RekeyFoldouts | Assets/Editor/NodeEditor.cs:829-842 | The corrected re-key, in any key order: the entry for the deleted node is gone, lower keys are kept, and higher keys move one down with their values |
| NodeEditors.ShiftedTypeIDs | Assets/Editor/NodeEditor.cs:782-788 | The loop decrements the type ids of node windows above the deleted node, and only those |
| NodeEditors.ShiftedFrom | Assets/Editor/NodeEditor.cs:790-793 | The loop decrements every node index from the deleted position on |
| NodeEditors.ShiftedOptionsIndexes | Assets/Editor/NodeEditor.cs:795-798 | The loop decrements the option indices from the first one above the deleted window on |
| NodeEditors.RenumberNodes | Assets/Editor/NodeEditor.cs:800-826 | Each remaining node undergoes the node renumbering rule |
| NodeEditors.RedirectOptions | Assets/Editor/NodeEditor.cs:844-860 | Each option undergoes the option redirection rule and keeps its entry condition |
| NodeEditors.AttachOptionNoDuplicates | Assets/Editor/NodeEditor.cs:172-178 | Attaching keeps the list free of repeats and contains the option; the old list is a prefix; nothing else is added |
| NodeEditors.RemoveFirstRemovesOne | Assets/Editor/NodeEditor.cs:727-731 | `List.Remove` takes away exactly one occurrence of the option, if there is one |
| NodeEditors.RemoveFirstNoDuplicates | Assets/Editor/NodeEditor.cs:727-731 | On a list without repeats, the option is gone afterwards and no repeat appears |
| NodeEditors.TruncateQuote | Assets/Editor/NodeEditor.cs:711-717 | A text longer than the limit raises ArgumentOutOfRange exactly when the limit is below 3; a text within the limit is shown unchanged |
| NodeEditors.TruncateQuoteShape | Assets/Editor/NodeEditor.cs:711-717 | A text longer than the limit is shown as its prefix plus "..." at exactly the limit's length; a shorter one is shown unchanged |
| NodeEditors.NodeEditor.constructor | Assets/Editor/NodeEditor.cs:75-81 | The editor works on the dialogue's lists, has nothing pending, and a fresh configuration at the defaults |
| NodeEditors.NodeEditor.CreateNode | Assets/Editor/NodeEditor.cs:354-366 | Exactly one fresh node is appended, with the old node count as its id; its window and bookkeeping are appended and the counter is incremented |
| NodeEditors.NodeEditor.CreateOption | Assets/Editor/NodeEditor.cs:368-380 | Exactly one fresh option is appended, with the old option count as its id; its window and bookkeeping are appended and the counter is incremented |
| NodeEditors.NodeEditor.AttachNodeToNode | Assets/Editor/NodeEditor.cs:136-150 | With a complete pair pending, the source node becomes immediate and aims at the chosen node, or at the exit for -1; no other node changes |
| NodeEditors.NodeEditor.AttachOptionToNode | Assets/Editor/NodeEditor.cs:162-181 | With a complete pair pending, the option is appended to the node only if absent, a foldout entry is made for it, and no other node changes. The pending pair is cleared on success and kept on every failure (ArgumentOutOfRange, ArgumentNull, DuplicateKey), as the exception skips `Clear()` |
| NodeEditors.NodeEditor.AttachNodeToOption | Assets/Editor/NodeEditor.cs:193-207 | With a complete pair pending, the option aims at the chosen node, or at the exit for -1; no other option changes. The pending pair is cleared on success and kept on an ArgumentOutOfRange failure |
| NodeEditors.NodeEditor.RemoveAttachedOption | Assets/Editor/NodeEditor.cs:725-734 | The "x" button removes the option from the node's list and its foldout: an immediate node raises from the null list, and a missing foldout entry raises after the list was changed |
| NodeEditors.NodeEditor.DeleteNodeWindow | Assets/Editor/NodeEditor.cs:765-863 | Removes the node and its window; the bookkeeping becomes the deleted-window state; every remaining node and every option undergoes its renumbering rule; pending attachments are cleared |
| NodeEditors.DeleteNodeWindowState | Assets/Editor/NodeEditor.cs:767-860 | The bookkeeping, node and option updates of a node-window deletion, each matching its rule |
| NodeEditors.DeleteEntities | Assets/Editor/NodeEditor.cs:800-860 | The node is removed and the remaining nodes and all options are renumbered and redirected |
| NodeEditors.DeleteNodeEntry | Assets/Editor/NodeEditor.cs:800-826 | The node is removed and the remaining nodes are renumbered |
| NodeEditors.DeleteWindowEntries | Assets/Editor/NodeEditor.cs:767-842 | The window lists, index lists, counter and foldouts become the deleted-window state |
| NodeEditors.ShiftedFoldoutsIgnoresDeleted | Assets/Editor/NodeEditor.cs:776-842 | Removing the deleted node's entry first does not change the re-keyed result |
| NodeEditors.AttachedImmediateEffect | Assets/Editor/NodeEditor.cs:136-150 | After node-to-node attach the node is immediate, keeps its id and options, and aims at the chosen node or at the exit, which is a legal edge |
| NodeEditors.AttachOptionStepKeepsFoldouts | Assets/Editor/NodeEditor.cs:162-181 | Attaching to a regular node succeeds, attaches the option once, keeps the node's foldout keys equal to its option set, and leaves other nodes' foldouts alone |
| ConfigurationWindows.AcceptGuards | Assets/Editor/ConfigurationWindow.cs:50-85 | The quote length is taken only above 16; the min height is first clamped to the max height and then taken only above 10; the max height is taken only above 50 and above the current min height; otherwise each is unchanged |
| ConfigurationWindows.AcceptStepsKeepHeightOrder | Assets/Editor/ConfigurationWindow.cs:61-86 | Each of the three steps keeps min height <= max height; an accepted max height is strictly above the min height |
| ConfigurationWindows.DisplaySectionKeepsValid | Assets/Editor/ConfigurationWindow.cs:61-86 | The defaults are valid settings, and the display section keeps settings valid |
| ConfigurationWindows.ValidSettingsTruncate | Assets/Editor/NodeEditor.cs:711-717 | Under any settings the window allows, the quote shown never raises and fits in the limit |
| ConfigurationWindows.ConfigurationWindow.constructor | Assets/Editor/ConfigurationWindow.cs:17-21 | The window edits the configuration it is given |
| ConfigurationWindows.ConfigurationWindow.DrawMenu | Assets/Editor/ConfigurationWindow.cs:37-158 | With the display section open, the three fields are applied in order by their guards; otherwise the settings are unchanged; repaint is requested when a display field was accepted or another section or Restore asked for it |
| ConditionDrawers.DrawRandomizerFields | Assets/Editor/ConditionTypesDrawers.cs:23-44 | The bounds are replaced exactly when the entered min < max; when the bounds are ordered, the threshold is the entered value exactly when it lies within them |
| ConditionDrawers.DrawRandomizerSettles | Assets/Editor/ConditionTypesDrawers.cs:35-44 | When min <= max before the edit, Min <= ValueChecked <= Max after it, so the threshold is a legal draw |
| ConditionDrawers.DrawRandomizerChanged | Assets/Editor/ConditionTypesDrawers.cs:23-33 | Reports a change exactly when accepted bounds differ from the old ones or the entered value differs from the old threshold; a settled evaluator reported unchanged is unchanged |
| ConditionDrawers.DrawRandomizerIdempotent | Assets/Editor/ConditionTypesDrawers.cs:6-47 | Re-submitting the values the inspector now shows changes nothing and reports no change |
| ConditionDrawers.DrawRandomizerConditionInterior | Assets/Editor/ConditionTypesDrawers.cs:6-47 | The fields are updated as the clamping rule prescribes and the change flag is returned; a condition without an evaluator raises a null reference |

## Left out

- Drawing and layout are left out. This covers `OnGUI`, window and curve drawing, resize and jump buttons, zoom, styles, textures, colours and `EditorPrefs`. They are floating-point geometry and calls into Unity. Window rectangles are kept only as opaque values.
- `Random.Range` is not modelled. Each evaluation instead reads the next value of a draw sequence given as a parameter. A range with MaxValue < MinValue describes no legal draw.
- IntRange: the bound `MaxValue + 1` is a 32-bit `int` in the code (Assets/Scripts/ConditionNodeExtensions.cs:45). At MaxValue = 2147483647 it wraps to a negative bound, and the model's unbounded integers do not capture that.
- TruncateQuote: its lengths count Unicode scalar values, but `StringBuilder` lengths count UTF-16 code units (Assets/Editor/NodeEditor.cs:711-717). The two differ only for text outside the Basic Multilingual Plane, where the code's cut can also split a surrogate pair.
- TruncateQuoteShape: the limit it proves is in Unicode scalar values, for the reason given for `TruncateQuote`.
- EntryConditionSet: the code keeps `entryConditionSet` as its own serialized field (Assets/Scripts/Dialogue.cs:427-430). The model derives it from `entryCondition != null`. Every setter keeps the two equal (lines 465-471). They can differ only in an option restored by Unity serialization, which is not modelled.
- The static `currentDialogue` is not modelled as ambient state. The walker methods read the dialogue they belong to.
- The unbounded loops are modelled only under a ghost rank precondition. Each rank is a sufficient condition for the loop to stop, not a necessary one. The rank is taken over the whole condition list. `ConditionChainTest`, `CanDisplay` and `CurrentNodeOptions` need `Ranked`, which ranks every edge with an in-range id, Exit edges included, as the chain loop follows them. `Next()` and `Next(option)` need only `ResolveRanked`, which ranks Condition edges only. Both exclude every graph with a cycle among the edges they rank. So they also exclude graphs on which the code does stop: a randomizer retry loop (a condition whose success edge leads back to itself, left at the first failing draw), a cycle through success edges of conditions without an evaluator (those always take their failure edge), and a cycle that no walk reaches. On such a dialogue the walker operations are not modelled at all. The edges needed for such a cycle are set only through `SetSuccessTarget` and `SetFailureTarget`, which nothing in the repository calls.
- `Next(option)` with a null `chosenAnswer` throws NullReference in the code. The model's `NextByOption` takes a non-null option, so that case is left out.
- The list-mutating members require their object lists to hold no object twice (`Distinct`): `Dialogue.DeleteOption`, `Dialogue.DeleteNode`, `Dialogue.DeleteCondition` with their `RenumberOptions`, `RenumberNodesFrom` and `RenumberConditions`, and `NodeEditor.DeleteNodeWindow` with its `RenumberNodes`, `RedirectOptions` and `DeleteEntities`. A C# list may hold one object twice, and then the last renumbering of it wins. That case is not modelled. The editor's lists hold distinct objects, because every entry is made by `new` in `CreateNode` and `CreateOption` or restored by Unity serialization.
- Null strings are modelled as the empty string. Null lists are modelled only where the code can produce them (an immediate node's `OptionsAttached`).
- `Debug.Log`, `WriteDebug` and the message list are not modelled. Also left out: Unity serialization (`SerializeField`, `ScriptableObject`, `SetDirty`), selection callbacks, the inspector that shows counts, and the thin GUI wrappers.
- The `Text`/`OptionText` setters and the `CustomID` setter are left out. They are plain field stores.
- `GetAll*` and `SetAll*` are left out. They copy lists.
- Dictionary enumeration order is an input: the `foldoutKeys` parameter of `DeleteNodeWindow` and of `RekeyFoldouts`.
- NodeEditors.NodeEditor.DeleteNodeWindow requires the window bookkeeping to be consistent (`WindowMaps`). It also requires its arguments to be those the node window's Delete button passes (Assets/Editor/NodeEditor.cs:644). Creation and deletion are proved to keep that invariant.
- NodeEditors.NodeEditor.DeleteNodeWindow does its bookkeeping first and then the node and option loops. The code interleaves them, but the two parts touch disjoint state, so their order does not change the result.
- Condition edges of kind Node are not renumbered when a node window is deleted. Neither the code nor the model does so.
- A regular node keeps its stale stored edge after a delete reverts it. This follows the code.
- `EditorConfigurationData.RestoreDefaults` is left out. It resets colours and toggles only, so in the model the Restore button only requests a repaint.
- The Close button of the configuration window is left out, as are the other sections' colours and toggles.
- The condition and option windows of the editor are not modelled. This covers their drawing and their delete buttons. Only node-window deletion is in the core.

## Findings

| source | as written | input that shows it | evidently intended | confidence | as-written member | corrected member |
|---|---|---|---|---|---|---|
| Assets/Scripts/Dialogue.cs:58-69 | The delete guard is `Count >= 0 && Count < nr`, so the body runs only for an index past the end, where `RemoveAt` throws. An in-range index deletes nothing. The same guard appears at lines 101-112 and 154-165. | A list of 3 entries with `nr` = 1: nothing is removed. With `nr` = 4, `RemoveAt` raises an ArgumentOutOfRange error. | `0 <= nr < Count`: remove entry `nr` and renumber the entries after it | not executed | Dialogues.DeleteAsWrittenCounterexample | Dialogues.Dialogue.DeleteOption |
| Assets/Editor/NodeEditor.cs:829-842 | The foldout keys are re-keyed in dictionary enumeration order: each key above the deleted node is removed and re-added one lower. `Add` throws when the lower key has not moved yet. | Foldouts for nodes 0, 2 and 3 enumerated as 0, 3, 2, with node 1 deleted: moving 3 to 2 hits the entry for 2. `Dictionary` does not specify its enumeration order. On ascending orders the loop is correct (`NodeEditors.RekeyAsWrittenSorted`). The editor's own flows may never produce another order: `RestoreFoldouts` rebuilds the map in node order (Assets/Editor/NodeEditor.cs:660-662), and the re-key's own Remove/Add pairs reuse freed entries in order. A non-ascending order needs a freed entry reused out of order, and such a sequence is not exhibited here. | Every key above the deleted node moves one down and keeps its value, in whatever order the keys come | low; not executed | NodeEditors.RekeyAsWrittenCollides | NodeEditors.RekeyFoldouts |

Both corrected forms are the ones the rest of the model uses. `Dialogues.Dialogue.DeleteNode` and `Dialogues.Dialogue.DeleteCondition` are corrected the same way as `DeleteOption`. `NodeEditors.DeletedInfo`, the state `DeleteNodeWindow` is proved to reach, re-keys the foldouts as `RekeyFoldouts` does.
