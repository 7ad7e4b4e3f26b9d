# Verified models of an Anusaaraka code base

Dafny models of the parts of a machine-translation system whose correctness is least obvious from reading one
function: its generated parser and scanners, the rule engine it embeds, and two file formats. Each part is modelled in
the form the C code has (stacks, buffers, linked lists and flags that change in place) and proved against a
specification on values.

| Part | Files | What is modelled |
|---|---|---|
| Constituency parser | `grammar`, `tree_tables`, `numerals`, `tree_report`, `lalr_tables`, `lalr_config`, `parser` | The table-driven automaton with its growing stacks, and the actions that fill the mother, head and daughters tables, and the names they report |
| Scanners | `bytes`, `flex_tables`, `longest_match`, `morph_rules`, `scanner`, `letter_scanner` | The scanner skeleton with its buffer that is moved and grown, run on two sets of compressed tables, and the lex rules one of them was made from |
| Agenda | `agenda_order`, `agenda`, `agenda_commands`, `strategy_orders` | The list of activations with its index of salience groups, the placing strategies, and the order each makes |
| Class hierarchy | `class_graph`, `deletion_order`, `class_links`, `subclass_lists`, `class_ids`, `slot_names`, `instance_template`, `handler_list` | Links and recursive deletion, traversals, id map, slot-name table, instance templates, handler lists |
| Variable analysis | `lhs_nodes`, `variable_analysis`, `nand_groups` | Scope of variables on a rule's left-hand side, what each refers to, and the tests of not/and groups |
| Escape codec | `ascii_codec`, `codec_format`, `decoder_ends` | The encoder of non-ASCII characters and the decoder with its look-ahead, and when it ends |
| Function table | `function_image` | Writing and reading the names in a binary image |

Specifications are functions on values (a parse tree's tables, the longest-match function, a sorted agenda, a set of
descendants); methods are tied to them by their postconditions, and lemmas prove what those functions mean. Ghost
parameters name the objects a structure consists of, so that a method can say what it may change. Modules about
classes each have the fields of a class that their code uses. Indices, counters and time tags are unbounded unless a
conversion is part of a property, as with the short index of a function and the int a salience is converted to.

What comes from outside is a parameter or an arbitrary choice: how an input routine cuts its input, random numbers,
the outcome of every evaluation of a salience expression, verdicts on constraints, whether a global variable exists,
whether a test belongs to a not/and group.

Findings about the code:

- The decoder does not give back every text. A valid UTF-8 text without the word `nonascii` comes back if and only if
  it does not end in an "n" and fewer than seven one-byte characters without a newline (`RoundTrip`); plain ASCII that
  holds the word does not (`AsciiRoundTrip`). Where the input runs dry in that way the decoder, from eight bytes on,
  does not end (`EndsUnlessDry`).
- The search for function names does not end when it goes on after the first function of the list and the name is
  unknown, and follows a null pointer when it goes on after the last (`SearchExact`); reading back what the writer
  wrote comes to neither (`WrittenReadable`).
- From 32769 needed functions on, the image counts functions that it does not name (`AllWritten`).
- A slot-name id that is forced on a new name is not checked; when it is in use the ids are no longer unique
  (`AddSlotName`).
- `CombineNandExpressions` never updates its last pattern, so it compares with the end depth of the first pattern only;
  when the first pattern is outside any group the result is one pattern per group (`WholeGroupsCombined`). It would
  lose the tests of a depth that no later element leaves, and only those (`KeptIffClosed`); the rule parser,
  which is not part of this model, leaves every depth it enters: it does not raise the end depth of the last element
  of a group (CLIPS/reorder.c:1604-1652).
- Two nodes of a parse can have the same label, as a first node of category NP1 and an eleventh of category NP
  (`NodesDiffer`, `NamesMeet`).
- A salience expression whose value is out of range is taken all the same if its conversion to an int of 32 bits is in
  range (`EvaluatedIs`).
- Of several patterns that bind a variable a later pattern of their type refers to the last one, but an occurrence that
  is of no pattern with any of them refers to the first (`LatestBinder`, `EarliestBinder`).
- When the last multifield slot of a pattern is empty, `GetVariables` goes through the fields behind it twice.
- `RemoveAllActivations` frees the groups without clearing the pointer to them; there are none left by then.

## Model

| member | source | states |
|---|---|---|
| `Grammar.FeedExpression` | Anu_src/y.tab.c:520-582 | Reading a well-formed expression token by token, in any context, completes exactly that expression there |
| `Grammar.FeedSound` | Anu_src/y.tab.c:520-582 | Every prefix that can be read at all is the yield of the open frames and the partial trees, which are well formed |
| `Grammar.FeedCharacterises` | Anu_src/y.tab.c:520-582 | An input derives from the grammar as tree `e` if and only if reading it token by token ends with the whole of `e` |
| `Grammar.Unambiguous` | Anu_src/y.tab.c:520-582 | No token sequence has two parse trees |
| `LalrTables.TableDecides` | Anu_src/y.tab.c:520-582 | Decoding the compressed action tables gives, for every state and token, the decision written out state by state |
| `LalrTables.NoErrorShift` | Anu_src/y.tab.c:520-582 | No state shifts the error token, so recovery from a syntax error never resumes |
| `LalrTables.Translations` | Anu_src/y.tab.c:443-478 | The token translation table sends the end, the five grammar tokens and everything else to the right symbols |
| `LalrConfig.StackSize` | Anu_src/y.tab.c:1084-1151 | The state stack of any configuration holds at most 9 entries per open parenthesis and 3 more |
| `LalrConfig.ShiftReads` | Anu_src/y.tab.c:1163-1223 | A table-permitted shift is one step of reading the input token by token |
| `LalrConfig.ShiftStacks` | Anu_src/y.tab.c:1204-1223 | After the shift the state stack is that of the new configuration |
| `LalrConfig.ErrorIsStuck` | Anu_src/y.tab.c:1383-1399 | When the table says error the tokens read so far cannot be continued by this one |
| `LalrConfig.ErrorAtEnd` | Anu_src/y.tab.c:1383-1399 | When the table says error at the end of input, what was read is not a whole expression |
| `LalrConfig.ReduceReads` | Anu_src/y.tab.c:1239-1377 | A reduction changes the stack but not what has been read |
| `LalrConfig.ReduceStacks` | Anu_src/y.tab.c:1357-1377 | Popping the right-hand side and following the goto table gives the stack of the reduced configuration |
| `LalrConfig.ReduceTables` | Anu_src/y.tab.c:1255-1345 | The semantic action of a reduction brings the global tables to those of the reduced configuration |
| `LalrConfig.ReduceValues` | Anu_src/y.tab.c:1357-1377 | The value stack keeps holding, for every open expression, the node name its closing report needs |
| `ConstituencyParser.Progresses` | Anu_src/y.tab.c:1163-1377 | Every action shifts a token or lowers a rank of the configuration, so the automaton cannot reduce for ever |
| `ConstituencyParser.Exhausted` | Anu_src/y.tab.c:755-764 | A stack that would pass 10000 entries means more than 1110 nested parentheses in the input |
| `ConstituencyParser.Accepts` | Anu_src/y.tab.c:1521-1523 | The accepting state is reached with the whole input read as one expression, and the tables are those of its tree |
| `ConstituencyParser.Rejects` | Anu_src/y.tab.c:1383-1399 | An error means that no derivation of the input exists, whatever tokens follow |
| `ConstituencyParser.Shifts` | Anu_src/y.tab.c:1204-1223 | A shift decided by the tables keeps stacks, values and tables in step with the configuration |
| `ConstituencyParser.Reduction` | Anu_src/y.tab.c:1239-1377 | So does a reduction |
| `ConstituencyParser.Parser.Relocate` | Anu_src/y.tab.c:391-400 | A grown stack holds what the old one held, in the same places |
| `ConstituencyParser.Parser.MakeRoom` | Anu_src/y.tab.c:1089-1151 | A full stack is doubled up to the limit with its contents kept; it fails only at the limit |
| `ConstituencyParser.Parser.Backup` | Anu_src/y.tab.c:1163-1237 | The decision for the state, with a lookahead read only when the state has no consistent default |
| `ConstituencyParser.Parser.OpenAction` | Anu_src/y.tab.c:1257-1266 | The action at a left parenthesis is the specification's OpenLevel on the global tables |
| `ConstituencyParser.Parser.RunAction` | Anu_src/y.tab.c:1255-1345 | Every semantic action, by rule number, has the effect the specification gives it |
| `ConstituencyParser.Parser.PopAndPush` | Anu_src/y.tab.c:1357-1377 | Pops as many entries as the rule is long and pushes the goto state with the rule's value |
| `ConstituencyParser.Parser.ReduceBy` | Anu_src/y.tab.c:1239-1377 | A reduction takes the parser from one configuration to the reduced one |
| `ConstituencyParser.Parser.Recover` | Anu_src/y.tab.c:1383-1504 | Error recovery pops the whole stack and gives up |
| `ConstituencyParser.Parser.Parse` | Anu_src/y.tab.c:1060-1558 | Terminates on every token sequence; returns 0 only if the input derives from the grammar, and then the tables are those of its parse tree; 1 only if it does not derive; 2 only if it nests more than 1110 parentheses |
| `TreeTables.WalkGrows` | Anu_src/y.tab.c:1255-1345 | What the actions do over one expression: it adds one labelled node and its descendants to the tables, level by level, and changes nothing else |
| `TreeTables.WalkSubGrows` | Anu_src/y.tab.c:1255-1345 | The same for the contents of an expression: nodes and leaves, in order |
| `TreeTables.ParsedTables` | Anu_src/y.tab.c:1255-1345 | After a parse, cell (l, k) of mother, head and daughters describes the k-th node at depth l of the labelled tree, index1 is the depth plus one, and the category lines, of the form (Node-Category label category), stand in preorder |
| `TreeTables.UntouchedCells` | Anu_src/y.tab.c:1255-1345 | Cells that belong to no node keep their initial value |
| `TreeReport.PreorderNumbers` | Anu_src/y.tab.c:1268-1283 | Every label is the category followed by the decimal numeral of the node's number in preorder |
| `TreeReport.DecimalIs` | Anu_src/y.tab.c:1276-1276 | A rendered count is a numeral of that value: digits only, without leading zeros |
| `Numerals.NumeralIsUnique` | Anu_src/y.tab.c:1276-1276 | Each number has one such numeral |
| `TreeReport.TreeReports` | Anu_src/y.tab.c:1255-1345 | The tree of a parse in terms of the expression alone: every node has its category, head word and number, and its daughter list names its subexpressions by category and number and its words by P and number from the left, in order |
| `TreeReport.NodesDiffer` | Anu_src/y.tab.c:1268-1283 | Two nodes share a label only if one's category is the other's with digits behind it |
| `TreeReport.NamesApart` | Anu_src/y.tab.c:1268-1283 | Where no category ends in a digit all labels differ |
| `TreeTables.LevelOrderIsPreorder` | Anu_src/y.tab.c:96-114 | The level-by-level listing has exactly the nodes of the preorder listing, each once |
| `TreeTables.FactsFollowLevels` | Anu_src/y.tab.c:96-114 | The facts of a tree are those of its nodes in level order |
| `TreeTables.PrintedTree` | Anu_src/y.tab.c:96-114 | The printing loops give one fact per node, level by level, with its head, level, mother label and daughter labels, and the category lines, written out, in preorder |
| `ConstituencyParser.Parser.PrintTables` | Anu_src/y.tab.c:96-114 | The loops of main output the rows of the tables and the category lines, each cell once |
| `FlexTables.MorphValid` | lex.yy.c:380-478 | The tables of the morph scanner: defaults lead downwards, entries stay in range, jams and back-up states are where the skeleton expects them |
| `FlexTables.LetterValid` | Anu_src/lex.yy.c:363-446 | The same for the per-letter tables |
| `LongestMatch.NextTerminates` | lex.yy.c:767-773 | One look-up stays within the arrays, and a default link leads to a real state strictly closer to the jam state, so the chain of defaults ends |
| `LongestMatch.NextReal` | lex.yy.c:767-773 | It ends, for every state and every class but that of the end of the buffer, in a real state other than the end-of-buffer state |
| `LongestMatch.JamStays` | lex.yy.c:757-776 | Once the automaton has jammed it stays jammed |
| `LongestMatch.StopsBeyond` | lex.yy.c:757-785 | No text beyond the point where the skeleton stops is accepted |
| `LongestMatch.LongestIs` | lex.yy.c:757-785 | The longest accepted prefix exists, is not empty, and is accepted by no longer prefix's rule |
| `LongestMatch.MatchesCover` | lex.yy.c:745-991 | The matched texts put together are the input |
| `MorphRules.FitsByPlace` | miscellaneous/SMT/MINION/alignment/morph.lex:39-76 | A text is one of those a rule describes if and only if reading it character by character ends at a place where the rule asks for nothing more |
| `MorphRules.NextIsDelta` | lex.yy.c:380-478 | Following the compressed tables through their default links gives, for every state the automaton can be in and every class, the transition written out state by state |
| `MorphRules.AcceptsIsFirstRule` | miscellaneous/SMT/MINION/alignment/morph.lex:39-76 | For every text the tables accept with the number of the first rule of the lex source that describes the whole text, and accept nothing else |
| `MorphRules.MatchesFollowRules` | lex.yy.c:745-991 | The matches of the tables are the one way to cut the input into tokens as the lex source prescribes: each the longest beginning that some rule describes, with the first such rule |
| `FlexScanner.NulResult` | lex.yy.c:1166-1188 | The transition on a NUL in the buffer decides between text and end of buffer as the automaton does |
| `FlexScanner.BestMatch` | lex.yy.c:757-785 | When the skeleton stops, the last accepting position it recorded is the longest match |
| `FlexScanner.Lexer.Step` | lex.yy.c:767-773 | One transition through the compressed tables is the automaton's Next |
| `FlexScanner.Lexer.Match` | lex.yy.c:757-776 | The inner loop runs the automaton up to its stop and records the last accepting state |
| `FlexScanner.Lexer.PreviousState` | lex.yy.c:1134-1159 | Rescanning the text matched so far gives the state it had |
| `FlexScanner.Lexer.TryNul` | lex.yy.c:1166-1188 | The transition on a NUL character, or none |
| `FlexScanner.Lexer.MoveText` | lex.yy.c:1032-1036 | Moving the partial token to the front of the buffer keeps it |
| `FlexScanner.Lexer.Grow` | lex.yy.c:1044-1087 | Growing the buffer keeps its contents |
| `FlexScanner.Lexer.GetNextBuffer` | lex.yy.c:1000-1131 | Refilling keeps the unread text: the partial token, then more input, or the end |
| `FlexScanner.Lexer.FindAction` | lex.yy.c:778-798 | Backs up to the last accepting position; the unread text is then the rest of the input |
| `FlexScanner.Lexer.EndAction` | lex.yy.c:864-981 | Each of the ways to go on at the end of the buffer keeps the match in progress |
| `FlexScanner.Lexer.Fire` | lex.yy.c:789-862 | An action gets exactly the matched text |
| `FlexScanner.Lexer.NextMatch` | lex.yy.c:745-991 | One round fires the rule of the longest match of the unread text, or ends at the end of the input |
| `FlexScanner.Lexer.Yylex` | lex.yy.c:683-991 | For every input and every way the input routine cuts it into chunks the matches are those of the plain longest-match function, and all input is consumed |
| `LetterScanner.LetterLongest` | Anu_src/lex.yy.c:696-724 | With the per-letter tables every longest match is one character |
| `LetterScanner.LetterOutput` | Anu_src/lex.yy.c:738-873 | The output is the input with every upper-case letter x replaced by zzz, lower-case x, qqq |
| `AgendaOrder.MayPrecedeTransitive` | CLIPS/crstrtgy.c:165-782 | Each conflict resolution strategy orders activations transitively |
| `AgendaOrder.MayPrecedeTotal` | CLIPS/crstrtgy.c:165-782 | and totally |
| `AgendaOrder.TagsDecide` | CLIPS/crstrtgy.c:165-782 | No strategy leaves activations with different time tags unordered |
| `AgendaOrder.ForwardInPlace` | CLIPS/crstrtgy.c:186-203 | The place a forward scan stops at is right for the whole group |
| `AgendaOrder.BackwardInPlace` | CLIPS/crstrtgy.c:264-286 | So is the place a backward scan stops at |
| `AgendaOrder.InsertGrouped` | CLIPS/agenda.c:180-189 | One more activation at its place keeps the agenda cut into groups of equal, descending salience |
| `AgendaOrder.RemoveGrouped` | CLIPS/agenda.c:650-706 | One less does too; a group of one becomes empty |
| `AgendaOrder.PlacedInOrder` | CLIPS/crstrtgy.c:78-156 | An activation put in its place keeps the whole agenda in order |
| `AgendaOrder.SortedIsUnique` | CLIPS/agenda.c:771-840 | With distinct time tags there is only one sorted agenda of the same activations: history leaves no trace |
| `Agenda.DefruleModule.FindSalienceGroup` | CLIPS/agenda.c:237-255 | The group with the salience, or null exactly when no group has it |
| `Agenda.DefruleModule.ReuseOrCreateSalienceGroup` | CLIPS/agenda.c:197-232 | The group with the salience; a new one is linked between the greater and the smaller |
| `Agenda.DefruleModule.ScanForward` | CLIPS/crstrtgy.c:165-203 | Stops at the first activation of the group that need not precede the new one |
| `Agenda.DefruleModule.ScanBackward` | CLIPS/crstrtgy.c:231-286 | Stops behind the last activation that may precede the new one |
| `Agenda.DefruleModule.PlaceInGroup` | CLIPS/crstrtgy.c:78-156 | Returns the activation to insert after and moves the group's ends if needed; the place suits the strategy |
| `Agenda.DefruleModule.PlaceActivation` | CLIPS/crstrtgy.c:78-156 | The agenda is the old one with the activation inserted, list and groups agree, and order is kept; what order that is, `OrderIs` says in numbers |
| `Agenda.DefruleModule.EvaluateSalience` | CLIPS/agenda.c:1199-1269 | The rule's salience: evaluated anew only when the mode asks for it and the value is an integer that, as an int, is in range |
| `Agenda.DefruleModule.AddActivation` | CLIPS/agenda.c:124-189 | Adds one new activation at its place, with a new time tag, and marks its match; groups agree, order is kept; under depth it stands first of its salience, under breadth last |
| `Agenda.DefruleModule.RemoveActivationFromGroup` | CLIPS/agenda.c:650-706 | Takes the activation out of its group; the group goes with its last activation |
| `Agenda.DefruleModule.RemoveActivation` | CLIPS/agenda.c:570-645 | The agenda without the activation; groups agree, order and counters are kept up |
| `Agenda.DefruleModule.DetachActivation` | CLIPS/agenda.c:471-529 | The same, with the activation's own links cleared |
| `AgendaCommands.ClearRuleFromAgenda` | CLIPS/agenda.c:260-302 | Removes exactly the activations of the rule's disjuncts, keeps the rest in order and unmarks the matches |
| `AgendaCommands.RemoveAllActivations` | CLIPS/agenda.c:722-743 | Leaves neither activations nor groups |
| `AgendaCommands.EnvReorderAgenda` | CLIPS/agenda.c:771-840 | A permutation of the activations in the strategy's order, with all groups made anew |
| `AgendaCommands.EnvRefreshAgenda` | CLIPS/agenda.c:978-1066 | Every activation gets what its own evaluation leaves its rule's salience at, however evaluations differ; then the agenda is put in order, losing none |
| `AgendaCommands.EnvRefresh` | CLIPS/agenda.c:891-935 | Adds activations for exactly those activating matches that had none; afterwards every one has one |
| `StrategyOrders.OrderIs` | CLIPS/crstrtgy.c:158-757 | On every agenda in order: greater saliences first; of equal ones, for each of the seven strategies, the direction in time tags, complexity, random number, first time tag and sorted time tags, written out in numbers |
| `StrategyOrders.TagsNotBelow` | CLIPS/crstrtgy.c:884-911 | Sorted time tags compare by the first place where they differ, and then by length |
| `Agenda.EvaluatedIs` | CLIPS/agenda.c:1199-1269 | A value from -10000 to 10000 is taken; one that differs from such a value by a multiple of 2 to the 32 is taken without it; any other leaves the salience |
| `AgendaCommands.AgendaIsSorted` | CLIPS/agenda.c:771-840 | A valid agenda in order is sorted as a whole, greatest salience first |
| `ClassLinks.DeleteSubclassLink` | CLIPS/classfun.c:419-447 | Removes the first link to the class and no other |
| `ClassLinks.UnlinkFromSuperclasses` | CLIPS/classfun.c:669-683 | Unlinks a class without subclasses from all its superclasses |
| `ClassLinks.BuildSubclassLinks` | CLIPS/classpsr.c:634-642 | A new class is entered with each superclass; links stay symmetric and acyclic |
| `ClassLinks.PlusFormed` | CLIPS/classpsr.c:634-642 | Adding a class under existing ones keeps a hierarchy well formed |
| `ClassLinks.MinusFormed` | CLIPS/classfun.c:669-733 | So does removing a set that holds with every class its subclasses |
| `ClassLinks.IsClassBeingUsed` | CLIPS/classfun.c:902-913 | TRUE exactly when the class or one that inherits from it is busy |
| `ClassLinks.Defclasses.EnvIsDefclassDeletable` | CLIPS/classcom.c:290-308 | TRUE exactly when constructs may be deleted, the class is no system class and nothing below it is busy |
| `ClassLinks.Defclasses.DeleteClassUAG` | CLIPS/classfun.c:971-991 | Terminates; TRUE exactly when nothing below the class is protected, and then the class and all that inherits from it are gone; otherwise exactly the classes before the first protected one in the order are gone; links stay symmetric either way |
| `DeletionOrder.OrderIs` | CLIPS/classfun.c:971-991 | The order in which deletion comes to the classes holds the class and all that inherits from it once each, every class behind its subclasses |
| `DeletionOrder.SubclassesInTurn` | CLIPS/classfun.c:978-989 | What is below the first k subclasses is a beginning of the order, and the class itself comes last |
| `DeletionOrder.UpToIs` | CLIPS/classfun.c:978-989 | A deletion that stops comes to exactly the classes that are not protected and have no protected one before them |
| `DeletionOrder.VisitResumes` | CLIPS/classfun.c:978-989 | Broken off and taken up again, as happens when a failed attempt has removed another direct subclass, the order is the same |
| `DeletionOrder.VisitMinus` | CLIPS/classfun.c:978-989 | Visiting the hierarchy without the classes deleted so far continues the order of the whole hierarchy |
| `SubclassLists.VisitDistinct` | CLIPS/classinf.c:1038-1058 | A traversal visits no class twice |
| `SubclassLists.VisitAll` | CLIPS/classinf.c:1038-1058 | and comes to all subclasses of every class it comes to |
| `SubclassLists.ProperDescendants` | CLIPS/classinf.c:1038-1106 | From fresh marks it comes to exactly the proper descendants of the class |
| `SubclassLists.DirectSubclasses` | CLIPS/classinf.c:1038-1106 | Without inheritance, to exactly the distinct direct subclasses |
| `SubclassLists.CountSubclasses` | CLIPS/classinf.c:1038-1058 | Counts the classes that the traversal newly marks |
| `SubclassLists.StoreSubclasses` | CLIPS/classinf.c:1073-1106 | Fills that many consecutive cells with those classes in that order, and no others |
| `SubclassLists.Traversals.GetTraversalID` | CLIPS/classfun.c:1111-1131 | A traversal id that no class is marked with, or -1 when all are in use |
| `SubclassLists.Traversals.EnvClassSubclasses` | CLIPS/classinf.c:576-599 | The listing of the class's subclasses, one cell each, with its name or its address; nothing when all 256 ids are in use; ids are released |
| `ClassIds.ClassIdMap.AssignClassID` | CLIPS/classfun.c:537-555 | The class gets the next id; the map takes every live id to its class and has as many chunks as needed |
| `ClassIds.ClassIdMap.DeassignClassID` | CLIPS/classfun.c:1244-1281 | The id is free again; the map ends behind the greatest live id |
| `ClassIds.ClassIdMap.ShrinkMap` | CLIPS/classfun.c:1258-1280 | Passes over empty entries and gives back exactly the chunks no longer needed |
| `SlotNames.SlotNameTable.FindSlotNameID` | CLIPS/classfun.c:1041-1051 | The id of the name's entry, or -1 when there is none |
| `SlotNames.SlotNameTable.NewSlotNameID` | CLIPS/classfun.c:1208-1231 | Terminates with the least id that no entry has |
| `SlotNames.SlotNameTable.AddSlotName` | CLIPS/classfun.c:570-615 | Adds an entry with the forced or the least unused id, or counts one more use; null when a name has another id than the forced one; the ids stay apart if and only if the id forced on a new name is not in use |
| `SlotNames.SlotNameTable.DeleteSlotName` | CLIPS/classfun.c:628-653 | One use less; the entry goes with its last use |
| `SlotNames.SlotNameTable.EntryWhileUsed` | CLIPS/classfun.c:570-653 | In every reachable table there is an entry for a name, and then one, exactly while it was added more often than deleted |
| `InstanceTemplates.MergedIs` | CLIPS/classpsr.c:751-790 | Merging a class's slots adds exactly the offered names that are new |
| `InstanceTemplates.TemplateIs` | CLIPS/classpsr.c:655-692 | Names are distinct; an entry is a slot of the class itself or one of another class that is not no-inherit, and no earlier class has such a slot of its name; every slot of the class itself and every slot of another class that is not no-inherit has its name there |
| `InstanceTemplates.MergeSlots` | CLIPS/classpsr.c:751-790 | The loop over the slots from the last to the first computes that merge and counts what it adds |
| `InstanceTemplates.Defclass.FormInstanceTemplate` | CLIPS/classpsr.c:655-692 | The instance template is the merged list; the local count is the number of its places whose slot is not shared |
| `InstanceTemplates.Defclass.FormSlotNameMap` | CLIPS/classpsr.c:716-734 | The map holds k+1 at the id of template entry k and 0 elsewhere, up to the greatest id |
| `HandlerLists.CountHandlers` | CLIPS/classinf.c:477-485 | The number of handlers of all classes looked at |
| `HandlerLists.FillBlock` | CLIPS/classinf.c:503-511 | One class's handlers, three cells each, in their own order |
| `HandlerLists.RowsAt` | CLIPS/msgcom.c:142-145 | The cells of a handler are the class's name, its own, and around, before, primary or after by its kind |
| `HandlerLists.InOrderAt` | CLIPS/classinf.c:491-514 | In a listing in order a class's block stands behind those of all earlier classes |
| `HandlerLists.ReversedAt` | CLIPS/classinf.c:491-514 | In a listing with inherited handlers it stands before those of the classes that precede it |
| `HandlerLists.EnvGetDefmessageHandlerList` | CLIPS/classinf.c:455-517 | All cells are filled: class blocks in order, or in reverse order of precedence with inheritance; the chain of classes is restored |
| `VariableAnalysis.PropagateVariableToNodes` | CLIPS/analysis.c:555-686 | Exactly the occurrences of the name that the walk comes to, before it meets a variable of the other kind and ends, get the reference (unless theirs is from another pattern of another kind); nothing else changes; TRUE exactly when the walk, outside expressions, meets an occurrence of the other kind |
| `VariableAnalysis.PropagateVariableDriver` | CLIPS/analysis.c:394-474 | Every reference set leads to a binding occurrence of the same name that is in scope; without error exactly the occurrences behind the header, behind the node and, from an open pattern, in the later elements in scope get it; TRUE exactly when kinds are mixed in one of these places |
| `VariableAnalysis.CheckExpression` | CLIPS/analysis.c:816-916 | Null only if every variable looked at has a reference; otherwise a node at fault |
| `VariableAnalysis.UnboundVariablesInPattern` | CLIPS/analysis.c:694-809 | FALSE only if every variable in the constraints of the field, or of all fields of the multifield slot, has a reference |
| `VariableAnalysis.ProcessField` | CLIPS/analysis.c:480-545 | Changes no reference; without error the field's constraints are bound |
| `VariableAnalysis.ProcessVariable` | CLIPS/analysis.c:326-388 | Propagates a binding occurrence to exactly the places that see it, where without error no variable of the other kind is met; its own constraints are bound |
| `VariableAnalysis.GetVariables` | CLIPS/analysis.c:250-320 | Ends, and without error has gone through every field in order, through those behind a last, empty multifield slot twice; every field is done: what it binds has reached all places that see it, and its constraints are bound; every reference is what those visits leave, one after the other |
| `VariableAnalysis.VariableAnalysis` | CLIPS/analysis.c:105-242 | References are justified throughout; without error all fields of all patterns are done and every variable looked at in a test element has a reference; and the reference of every occurrence is, of all binding occurrences that come to it in the order gone through, the last one of its pattern or type of pattern, or the first of all when there is none such |
| `VariableAnalysis.ChosenOnce` | CLIPS/analysis.c:631-634 | That choice is determined |
| `VariableAnalysis.LatestBinder` | CLIPS/analysis.c:631-634 | With one type of pattern an occurrence refers to the last binding occurrence gone through that comes to it |
| `VariableAnalysis.EarliestBinder` | CLIPS/analysis.c:631-634 | An occurrence of another pattern and type of pattern than all of them refers to the first |
| `VariableAnalysis.SeesInScope` | CLIPS/analysis.c:394-474 | What an open pattern binds comes to every occurrence of the name in the later elements in scope |
| `VariableAnalysis.KindsApart` | CLIPS/analysis.c:592-604 | Without error no single-field variable or pattern address meets a multifield variable of its name outside expressions, nor the other way round |
| `VariableAnalysis.TestVariablesBound` | CLIPS/analysis.c:105-242 | Without error every variable in a test refers to an earlier binder of the same name in a pattern neither negated nor exists, with no element in between closing below the binder's depth |
| `NandGroups.CombinedConjuncts` | CLIPS/exprnops.c:404-503 | Combining two tests keeps each conjunct once |
| `NandGroups.GroupsCombined` | CLIPS/analysis.c:1009-1059 | With all depths closed the first pattern of each group ends up with all that the group held, the others with nothing |
| `NandGroups.GatheredIs` | CLIPS/analysis.c:1009-1059 | What the group held is put together in order, tests and both hash expressions: from the last pattern of the group down to the first |
| `NandGroups.NothingLost` | CLIPS/analysis.c:1009-1059 | Each test, left and right hash expression occurs as often as before |
| `NandGroups.UnclosedLoses` | CLIPS/analysis.c:1009-1059 | A test of the first pattern whose depth no later element leaves is lost |
| `NandGroups.KeptIffClosed` | CLIPS/analysis.c:1009-1059 | For all depths: no test is lost or repeated, whatever the patterns hold, if and only if every depth is left |
| `NandGroups.WholeGroupsCombined` | CLIPS/analysis.c:1009-1059 | When every depth is left and the first pattern is outside any group, the first pattern of every group, at any depth, has all that the group held, its others nothing, and patterns outside keep theirs |
| `VariableAnalysis.SetIffBound` | CLIPS/analysis.c:105-242 | A variable in a test has a reference if and only if an earlier pattern in scope binds its name |
| `VariableAnalysis.AnalyseTest` | CLIPS/analysis.c:178-220 | A test without global variables is found at fault, when constraints are not checked, if and only if some variable in it is not bound by an earlier pattern in scope |
| `VariableAnalysis.FieldVariablesBound` | CLIPS/analysis.c:694-809 | Without error every variable among the constraints of a pattern's field refers to a binder of the same name in the same pattern or in an earlier one in scope |
| `VariableAnalysis.ConstraintVariablesBound` | CLIPS/analysis.c:764-775 | So does every variable within a predicate or return-value constraint of the field |
| `VariableAnalysis.ElementsCome` | CLIPS/analysis.c:668-681 | The walk from one element comes to a later element's expression when no element on the way closes below the depth |
| `VariableAnalysis.CombineNandExpressions` | CLIPS/analysis.c:1009-1059 | The loops compute that movement on the parse nodes |
| `AsciiCodec.CountBytes` | Anu_src/identify-nonascii-chars.c:10-28 | Counts the leading ones of a byte below 255; 255 would divide by zero |
| `AsciiCodec.LengthIs` | Anu_src/identify-nonascii-chars.c:10-28 | For every lead byte that is the length of the UTF-8 sequence |
| `CodecFormat.LeadIs` | Anu_src/identify-nonascii-chars.c:10-28 | The number of bytes of a character for every first byte, in codes |
| `CodecFormat.DecimalIs` | Anu_src/identify-nonascii-chars.c:46-51 | Every byte is written in digits, codes 48 to 57, without leading zeros, and has their value by position |
| `CodecFormat.EncodedIs` | Anu_src/identify-nonascii-chars.c:38-55 | A character of n bytes is written as the codes of nonascii, then 48 + n, then three digits for each byte, then the rest |
| `CodecFormat.EncodedSame` | Anu_src/identify-nonascii-chars.c:38-55 | A byte below 192 is written as it is |
| `AsciiCodec.EncodeText` | Anu_src/identify-nonascii-chars.c:38-55 | The loop writes the encoded text, or stops with a fault at a byte 255 that starts a character |
| `AsciiCodec.NoOverlap` | Anu_src/replace_nonascii-chars.c:22-68 | The marker cannot begin inside another one |
| `AsciiCodec.NoFalseMarker` | Anu_src/replace_nonascii-chars.c:22-68 | In encoded text the marker stands at a one-byte character only if it stood there in the text |
| `AsciiCodec.TurnCopies` | Anu_src/replace_nonascii-chars.c:22-68 | At anything but the marker the look-ahead and the seek back pass on one byte, whatever the buffers held, unless fewer than seven bytes and no newline follow an 'n' |
| `AsciiCodec.TurnDecodes` | Anu_src/replace_nonascii-chars.c:36-50 | At the marker the digit and the numbers behind it are decoded |
| `AsciiCodec.TurnProgress` | Anu_src/replace_nonascii-chars.c:22-68 | A turn that goes on puts out no more than it reads, and at the marker less |
| `AsciiCodec.RoundTrip` | Anu_src/replace_nonascii-chars.c:22-68 | For every valid UTF-8 text without the marker, decoding undoes encoding if and only if the text does not end in an 'n' and fewer than seven one-byte characters without a newline |
| `AsciiCodec.LinesRoundTrip` | Anu_src/replace_nonascii-chars.c:22-68 | Decoding undoes encoding on every valid UTF-8 text that ends its last line and does not hold the marker |
| `AsciiCodec.AsciiRoundTrip` | Anu_src/replace_nonascii-chars.c:22-68 | On plain ASCII the encoder changes nothing, and the decoder changes nothing if and only if the text neither holds the marker nor runs dry at its end |
| `AsciiCodec.MarkerLost` | Anu_src/replace_nonascii-chars.c:22-68 | The marker and a newline come back as nothing |
| `CodecFormat.AtoiIs` | Anu_src/replace_nonascii-chars.c:44-46 | The decoder reads a number as blanks skipped, a sign, and the value by position of the digits, codes 48 to 57, in front of anything else |
| `CodecFormat.TurnReads` | Anu_src/replace_nonascii-chars.c:36-50 | Behind the codes of nonascii and the code 48 + n, n from 1 to 6, the decoder reads n numbers of three digits and puts out their bytes up to the first zero |
| `AsciiCodec.DecodeText` | Anu_src/replace_nonascii-chars.c:22-68 | On every input on which it ends, the loop with its buffers computes that decoding, or the fault of an overflowing array |
| `DecoderEnds.EndsIffForward` | Anu_src/replace_nonascii-chars.c:22-68 | For every input, with or without the marker, and whatever the buffers hold: the decoder ends if and only if no turn of its run steps back or stays |
| `DecoderEnds.EndsUnlessDry` | Anu_src/replace_nonascii-chars.c:22-68 | Without the marker, from eight bytes on, the decoder ends if and only if no 'n' behind the last newline has fewer than seven bytes behind it, and then it puts out the input |
| `DecoderEnds.LinesEnd` | Anu_src/replace_nonascii-chars.c:22-68 | On every input that ends its last line the decoder ends |
| `DecoderEnds.ShortEnds` | Anu_src/replace_nonascii-chars.c:22-68 | On fewer than eight bytes without a newline it ends when the buffer holds no newline either |
| `DecoderEnds.NoNewlineLoops` | Anu_src/replace_nonascii-chars.c:25-63 | An input on which it does not end: eight letters and an 'n' |
| `FunctionImage.InitializeFunctionNeededFlags` | CLIPS/bsave.c:276-285 | Clears the flag of every function |
| `FunctionImage.FunctionBinarySize` | CLIPS/bsave.c:370-385 | The bytes of all names written, each with its closing zero |
| `FunctionImage.WriteNeededFunctions` | CLIPS/bsave.c:308-363 | Needed functions are numbered in list order; the recorded space is that of the names that follow |
| `FunctionImage.JoinedAt` | CLIPS/bsave.c:338-362 | Each name stands behind the names before it and their zeros, with a byte 0 of its own behind it |
| `FunctionImage.AllWritten` | CLIPS/bsave.c:317-337 | All needed functions are written if and only if there are at most 32768, so that their indices fit a short integer |
| `FunctionImage.FastFindFunction` | CLIPS/bload.c:520-562 | Goes around the list from behind the function found last: the function found, null, or the fault of following a null pointer, as the outcome says |
| `FunctionImage.SearchExact` | CLIPS/bload.c:520-562 | For every list, name and start: a fault if and only if it starts behind the last entry; no end if and only if it starts behind the first of several and the name is absent; null if and only if the list is empty, or it starts elsewhere and no entry but the one it starts behind has the name; otherwise an entry with the name |
| `FunctionImage.SearchTurns` | CLIPS/bload.c:545-555 | The turns of the search loop come to that outcome, or for ever to none |
| `FunctionImage.ReadNeededFunctions` | CLIPS/bload.c:429-514 | Unless a search has no end: entry k is the function at which the k-th search ended; an error exactly when one finds nothing, a fault exactly when one follows a null pointer |
| `FunctionImage.PlacesAre` | CLIPS/bload.c:468-489 | Each function found has the name; a name is not found only if no function but the one found just before has it |
| `FunctionImage.WrittenReadable` | CLIPS/bload.c:429-514 | Reading what was written, every search goes on to the next needed function |
| `FunctionImage.SaveAndLoad` | CLIPS/bload.c:429-514 | After saving and loading with the same list there is no error and the array takes every needed function's index to it |

## Left out

- Text output: file opening, `fprintf` formats, routers, watch and error messages; output is a sequence of facts, cells or bytes.
- Memory: allocation failure, fixed sizes of C arrays, integer wrap-around and pointer casts.
- In the parser: the debugging text and parenthesis positions (`my_temp`, `my_opn_parn_loc`), the stack clean-up after the result is known, and the scanner that feeds it; token texts are arbitrary.
- In the scanners: interactive input, buffer stacks, `yyunput`, accessor functions, and the C code inside the morph rules.
- In the agenda: `MoveActivationToTop` and `EnvSetActivationSalience`, which leave the groups alone; auto-focus; the loop over all modules; the sorting of a match's time tags, which are given sorted; activations without a match.
- In the class hierarchy: precedence lists and the packing of slots, constraint and expression reference counts, hash chains of the class table (a list here), symbols of put-handlers.
- In the variable analysis: constraint records, the conversion of fields into network tests and the replacement of variables in tests.
- VariableAnalysis.CheckExpression: does not say when constraints are unmatchable or a global variable is unknown, because those verdicts are arbitrary here.
- FunctionImage.ReadNeededFunctions: takes an image whose names are joined as the writer joins them, and on which no search runs for ever; null pointers that a search follows end in a fault.
- AsciiCodec.DecodeText: takes the inputs on which the loop ends, as a method has to end; which they are is `EndsIffForward`. More than six numbers after the marker, which would overflow an array, end in a fault; that `fgets(t,4,fp1)` writes one byte more than `char t[3]` holds at every three-digit number is not modelled.
- Everything else in the repository: dictionaries, linguistic heuristics, shell and Python scripts, PHP and JavaScript pages, and the rest of the rule engine.
