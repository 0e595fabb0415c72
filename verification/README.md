# Proofs about the ns-3 "all in one" components

This project models six parts of the repository, each in the form its source has, and proves what each of them is for.
Code that changes state is a class or a method with a loop, tied to a function; the properties are proved about that
function.

- **The NSC globaliser** (`nsc-0.5.3/globaliser`) turns every global and static local of a C program into one object per
  network stack. `CLang` is a small C with blocks, automatic and static declarations, pointers, calls and loops, and its
  semantics (`CRuns` has two functions run under it). `Globaliser` specifies the scoped walk and its symbol table;
  `HgrWalk` is the walk as the code does it, in place. `Lexical` is C's scoping, written without the walk, and the
  programs for which the walk gets it right; `ScopeProof` shows that it does, and `SideConditions` says exactly when
  each restriction is needed. `Forms` reads the form of each object off the source, and `GlobalsFile` says what the
  globals file has to do with it. `Preservation`, `Loading`, `Placements` and `Stacks` show that the output, run by many
  stacks in one memory, is as many independent runs of the source program. `InitialiserText`, `InitialiserCopies`,
  `ArrayElimination` and `Names` are about the text that is emitted.
- **The lexer layer of the globaliser** (`Lexer`): it holds each token back by one and moves whitespace and attributes.
- **NetAnim's playback**: a cursor over packets (`PacketScan`), a jumping clock (`FastForward`), and a replay of link
  and node updates that resumes where it stopped (`UpdateReplay`). Time is a real number.
- **The worker pool of test.py** (`WorkerPool`): a transition system whose runs are all interleavings of the dispatcher,
  the workers and an interrupt, and the counting of results.
- **The attribute-path gatherer** (`TypePaths`): a search over a type graph that may have cycles.
- **IPv6 and IPv4 addresses** (`IPv6Mask`, `IPv6Text`, `IPv4`, over `Bits` and `Decimals`): masks word by word and byte
  by byte against arithmetic on the whole number, and printing against parsing.
- **Shell command lines** (`ShellPipeline`, `ShellRun`): a parser that is a state machine, and an interpreter loop.

## What the code does not do

Each name in parentheses is a proved statement: the exact condition, or a case that fails it.

- The globaliser loses a static local when a scope has two static declarations (`ListsRestoredIff`), rewrites nothing of
  a static local that hides a live automatic variable (`StaticSeenIff`), finds a dead record after nested static locals
  of one name (`LookupsRestoredIff`), forgets a function when a static local has its name (`FunctionKeptIff`), takes a
  later declarator of the same declaration for an earlier variable (`AutosAgreeIff`), and, when the initialiser of an
  object that gets instances mentions that object, gives up (`SelfMentionIff`) or without a word takes an outer variable
  of the same name for it (`SelfMentionResolvedIff`, `OuterFound`).
- Its copies of an initialiser are made by replacing text, so a name that has `_GLOBAL_0_` in it, or gets it from what
  is put before or after, is changed too: `GLOBAL_0_z` is an ordinary name, and copy 1 of its address is that of an
  array that is not declared (`CopiedIff`, `OrdinaryNameChanged`).
- The initialiser of an ignored variable refers to stack 0's objects, for all stacks (`MirroredIsClosed`,
  `IgnoredAddressLost`).
- It gives two declarations of one object different forms when an array declarator or a struct definition has come in
  between (`FormKeptIff`, `OneFormIff`); then there is no way to place the objects that fits all of the output
  (`PlacementExistsIff`).
- Its README says that the variables listed in the globals file are modified; the code modifies every variable that the
  file does not mark `$ignored` (`WhichForm`, `WhichReference`). A line with a '/' cannot ignore a static local, because
  the '/' is looked for before the '$'; but a static local whose declaration has only identifiers that are ignored as
  globals is left single, and all stacks share it (`StaticStaysIff`, `IgnoredStaticShared`, `IgnoredStructStays`).
- Playback stops scanning at the first packet to come, so a packet that is listed behind it is not shown
  (`ScanIsFilterIff`, `AlwaysFilterIff`). Fast-forward skips the rest of the trace when the node delta is 0, which is
  what a scene without nodes reports (`FastForwardRun`, `PacketNeverShown`). After a seek back, an object whose first
  update comes after the first one later than 0 keeps a look from the future (`CursorIsReplayIff`).
- The attributes after a ';' or '}' are in the `attr_text` of that token and of the next one, though only once in
  `lex_text` (`TextsReturned`).
- A shell command line does not run as in a shell when a && follows a ||, or a || a && with a command before it: what is
  skipped ends the line. Nor does it when a `cd` or an input file stands behind a pipe, or a relative file name behind a
  `cd` (`LikeShellIff`). A `cd` without a directory or at the end of the line raises an exception (`ExitsIff`).
- `IPAddress` accepts a number above 255 if it wraps around, in 32 bits, to one up to 255 or to a negative one
  (`ParsedIff`, `IPv4.TooLargeAccepted`). `IPv6Address` accepts one above 0xFFFF if its lowest 32 bits are not, up to
  2^64 (`NumberReadIff`, `IPv6Text.TooLargeAccepted`), and takes `<unspec>` in lower case only (`CaseIsIgnoredIff`).

## Model

| member | source | states |
|---|---|---|
| Stacks.OneProgramIsMany | nsc-0.5.3/globaliser/node.cc:1098-1194 | for every supported program and every sequence of calls by any stacks in any order: running the rewritten program in one memory, from its load, gives the same return values and the same final memories as running one copy of the source program per stack, each in a memory of its own; the interleaved run gets stuck or runs out of fuel exactly when the separate runs do |
| Stacks.StacksAreApart | nsc-0.5.3/globaliser/handle_global.cc:365-395 | the same from any memory whose slot k holds stack k's memory for every k: isolation and meaning over whole runs |
| Stacks.MeaningPreserved | nsc-0.5.3/globaliser/node.cc:1477-1640 | one call by stack k on the rewritten program returns the image of what the source's call returns, leaves in slot k what the source leaves, gets stuck or runs out of fuel exactly when the source does, and leaves every slot j != k and the pointer arrays as they were |
| Stacks.LoadPreserved | nsc-0.5.3/globaliser/node.cc:1051-1194 | the static initialisation of the rewritten program gives every stack the source program's initial memory, fills every pointer array with the addresses of the instances, and fails exactly when the source's does |
| Stacks.CallApart | nsc-0.5.3/globaliser/handle_global.cc:365-395 | a call by stack k on the shared memory changes only the memory that stack k sees: all other stacks' memories are still mirrored |
| Stacks.MirroredIsClosed | nsc-0.5.3/globaliser/node.cc:846-858 | the converse of LoadPreserved's condition: if a stack other than 0 starts from the source's memory, no ignored variable holds the address of a rewritten object |
| Stacks.IgnoredAddressLost | nsc-0.5.3/globaliser/node.cc:846-858 | `int x; int *p = &x;` with p ignored: no stack but 0 starts from the source's memory |
| Placements.PlacementExistsIff | nsc-0.5.3/globaliser/handle_global.cc:289-331 | the main results need each object to be emitted in one form (the code only warns when it is not); the objects can be placed, and the output has one form per object, if and only if the declarations of the source program, with the structs defined before each, say so |
| Placements.BoundAdded | nsc-0.5.3/globaliser/parser.yc:846-860 | `extern int a[]; int a[5];`: arrays with and without a bound are treated alike, and the object can be placed |
| Placements.ArrayByTypedef | nsc-0.5.3/globaliser/node.cc:786-810 | `typedef int t[5]; extern t a; int a[5];`: a supported program whose object gets two forms, as only a declarator tells that a variable is an array |
| Placements.StructAdded | nsc-0.5.3/globaliser/handle_global.cc:537-560 | `extern struct s x; struct s { ... }; struct s x;`: another |
| Forms.OneFormIff | nsc-0.5.3/globaliser/node.cc:801-815 | over all nested declarations of a file, what the walk emits for each is what its kind, the first declaration of its name, the structs defined so far and the globals file say; so objects have one form in the output exactly if they have in the source |
| Forms.OneFormCases | nsc-0.5.3/globaliser/handle_global.cc:879-886 | and they have exactly if no two declarations of an object clash: one has an array declarator, or a plain struct type that is not defined yet, the other has neither, and the name is not marked `$expand_decl` |
| GlobalsFile.WhichForm | nsc-0.5.3/globaliser/handle_global.cc:746-753 | every definition of a supported file, nested static locals included, comes out in its place with its name, its type and a copy of its initialiser for each of 50 stacks: single if and only if the globals file says `$ignored` for its name; otherwise with an instance per stack if and only if it is an array, or the file says `$expand_decl`, or it is no pointer and was first declared, as no pointer either, with a struct that is not defined yet; and else with a slot per stack. A name that is only listed is treated like one that is not |
| GlobalsFile.EmissionMeans | nsc-0.5.3/globaliser/handle_global.cc:865-886 | the three forms in terms of what the file says of a name, its kind, and the place of its first declaration |
| Placements.ItemsNumbered | nsc-0.5.3/globaliser/handle_global.cc:932-939 | over a whole file the pointer arrays are numbered consecutively from the start number to the end number, so no two definitions share an array |
| Preservation.RefMirrors | nsc-0.5.3/globaliser/handle_global.cc:365-395 | an identifier rewritten in either form (slot or pointer array) reaches, when stack k runs, slot k of exactly the object that lexical scoping says the source names |
| Preservation.EvalMirrors | nsc-0.5.3/globaliser/handle_global.cc:365-395 | so every expression denotes the image of the source's location and value, address-of and dereference included |
| Preservation.BindMirrors | nsc-0.5.3/globaliser/node.cc:996-1037 | after a rewritten definition the names in scope stand for the same objects as after the source's, each in its emitted form |
| Preservation.InvokeMirrors | nsc-0.5.3/globaliser/node.cc:1477-1640 | calls, by induction over the run: same outcome, mirrored memory, nothing else touched |
| Preservation.StmtsMirror | nsc-0.5.3/globaliser/node.cc:1516-1551 | statement lists likewise, with declarations coming into scope on the way |
| Preservation.WhileMirrors | nsc-0.5.3/globaliser/node.cc:1552-1587 | loops likewise, for every number of iterations |
| Loading.InitMirrors | nsc-0.5.3/globaliser/node.cc:1125-1139 | copy k of a constant initialiser has the value that stack k sees in the source's initialiser, whatever objects it takes the addresses of |
| Loading.InitFromMirrors | nsc-0.5.3/globaliser/node.cc:1165-1189 | writing the slots or instances one after the other: slot k holds the source's value once its turn has come and the others do not disturb it; the new pointer array ends up filled |
| Loading.ItemsLoad | nsc-0.5.3/globaliser/node.cc:466-1037 | loading, item by item, keeps source and rewritten program mirrored, and their functions too |
| ScopeProof.WalkIsResolution | nsc-0.5.3/globaliser/node.cc:1477-1640 | on every supported program the walk meets no error and its output is the lexical resolution written independently of it: an identifier is rewritten exactly when C scoping binds it to a global that is not ignored or to a static local, and always in the form of its definition |
| GlobalsFile.WhichReference | nsc-0.5.3/globaliser/node.cc:1590-1636 | a function that reads a file-scope variable, behind any supported file: the variable itself if the globals file ignores it; otherwise what the running stack's pointer in the array of the variable's last definition points to, if that definition got instances, and the running stack's slot if not |
| GlobalsFile.ItemFits | nsc-0.5.3/globaliser/handle_global.cc:289-331 | after each item every variable is bound by its last definition so far |
| ScopeProof.StmtsAgree | nsc-0.5.3/globaliser/node.cc:1516-1551 | for the rest of any statement list: rewritten as resolution says, and at its end the live locals and statics, the defined structs and all visible records are those from before the list |
| ScopeProof.BlockAgrees | nsc-0.5.3/globaliser/node.cc:1526-1551 | after a block everything known about the scope before it is known again |
| ScopeProof.LeafAgrees | nsc-0.5.3/globaliser/node.cc:1590-1636 | a leaf becomes what its binding says, in code and in the initialiser of any stack j |
| ScopeProof.AutosAgree | nsc-0.5.3/globaliser/node.cc:1385-1412 | initialisers of automatic variables, walked when all declarators are already known, come out as sequential scoping says when none mentions a later declarator |
| ScopeProof.FormAgrees | nsc-0.5.3/globaliser/handle_global.cc:879-886 | the walk chooses an instance per stack exactly when the resolution's declaration order, struct definitions and globals file say so |
| ScopeProof.HandleAgrees | nsc-0.5.3/globaliser/node.cc:996-1037 | a definition is emitted in that form, with initialiser copies that refer to what is in scope, and pushes exactly two records |
| ScopeProof.StructKnown | nsc-0.5.3/globaliser/handle_global.cc:529-531 | a struct that becomes defined between definition and reference changes no reference: encodings keep agreeing because the set of defined structs only grows |
| ScopeProof.LeftOfStatic | nsc-0.5.3/globaliser/node.cc:1543-1551 | leaving the scope of a static local, which pushed two records and pops one, leaves nothing that any identifier in scope could see |
| SideConditions.ListsRestoredIff | nsc-0.5.3/globaliser/node.cc:1416-1419 | leaving any statement list always restores the locals, and restores the static locals if and only if no scope has a static declaration after one that was rewritten: the count is assigned, not added to |
| SideConditions.LookupsRestoredIff | nsc-0.5.3/globaliser/handle_global.cc:336-356 | with one static declaration per scope, lookups of x find the same records after a function as before it if and only if no static local named x is declared in the scope of another |
| SideConditions.LatestIsLastMangled | nsc-0.5.3/globaliser/handle_global.cc:341-356 | a lookup returns the last of the records that carry a mangled name |
| SideConditions.StaticSeenIff | nsc-0.5.3/globaliser/node.cc:1590-1617 | right after its declaration a static local is rewritten if and only if no live automatic variable has its name |
| SideConditions.AutosAgreeIff | nsc-0.5.3/globaliser/node.cc:1385-1412 | a declaration of automatic variables is rewritten as C's scoping says if and only if no initialiser names a rewritten variable that a later declarator of the same declaration hides |
| SideConditions.FormKeptIff | nsc-0.5.3/globaliser/handle_global.cc:879-886 | two declarations of one name, with different declarators: the later gets the form of the earlier if and only if the name is marked `$expand_decl` or no array declarator and no struct definition has come or gone in between, said of both kinds, the first record and the structs defined at each |
| SideConditions.SelfMentionIff | nsc-0.5.3/globaliser/node.cc:1154-1162 | a definition that gets instances is an error of the walk if and only if its initialiser mentions its own name, no automatic variable has that name, and no earlier rewriting of it is on the table |
| SideConditions.SelfMentionResolvedIff | nsc-0.5.3/globaliser/handle_global.cc:397-412 | and it is walked without an error and exactly as C's scoping says, in all 50 copies, if and only if it does not mention itself, or no automatic variable has its name and the latest rewriting on the table gave instances |
| SideConditions.OuterFound | nsc-0.5.3/globaliser/handle_global.cc:397-412 | `int x; void f(void) { static void *x[] = { &x }; }`: no error, but copy 3 has the address of the outer x of stack 3, where C means the array itself |
| SideConditions.SelfMentionFails | nsc-0.5.3/globaliser/node.cc:1154-1162 | `struct list_head x = { &x };` marked `$expand_decl`: the walk gives up |
| SideConditions.FunctionKeptIff | nsc-0.5.3/globaliser/node.cc:1543-1551 | after a statement list a function's name is still a function's if and only if no static local named so was rewritten in it |
| SideConditions.FunctionLost | nsc-0.5.3/globaliser/node.cc:1543-1551 | a static local with a function's name: afterwards the name is a variable's, without a rewriting to be found |
| SideConditions.StaticStaysIff | nsc-0.5.3/globaliser/node.cc:168-186 | a static local is left single, for all stacks to share, if and only if its name and all identifiers of its initialiser are ignored |
| SideConditions.IgnoredStructStays | nsc-0.5.3/globaliser/parser.yc:619-628 | `static struct s x;` with x ignored and s not is left single: the parser hides the tag |
| SideConditions.IgnoredStaticStays | nsc-0.5.3/globaliser/node.cc:168-186 | a function with such a counter comes out unchanged |
| SideConditions.IgnoredStaticShared | nsc-0.5.3/globaliser/node.cc:168-186 | and whichever stack calls it counts on from where the last one was |
| SideConditions.TwoStaticsLeak | nsc-0.5.3/globaliser/node.cc:1418-1418 | two static locals in one block: the first stays live |
| SideConditions.HiddenStaticMissed | nsc-0.5.3/globaliser/node.cc:1593-1596 | a static local over a parameter: its uses are not rewritten |
| SideConditions.NestedStaticFound | nsc-0.5.3/globaliser/node.cc:1543-1551 | a static local inside the scope of one of its name: a record stays to be found |
| SideConditions.LaterSiblingMissed | nsc-0.5.3/globaliser/node.cc:1536-1539 | `int a = y, y;`: the walk does not rewrite the outer y |
| HgrWalk.FindMangled | nsc-0.5.3/globaliser/handle_global.cc:341-356 | the backward search returns the most recent record with a mangled name, or nothing |
| HgrWalk.Walker.PushSymbol | nsc-0.5.3/globaliser/handle_global.cc:258-285 | the whole new state: one record more for x |
| HgrWalk.Walker.Undefine | nsc-0.5.3/globaliser/handle_global.cc:336-343 | one record less for x; an error when there is none |
| HgrWalk.Walker.Identifier | nsc-0.5.3/globaliser/node.cc:1590-1636 | what an identifier becomes, in the order the code asks: local, function, static local, declared and not ignored (which references that rewrites: `WhichReference`) |
| HgrWalk.Walker.Expands | nsc-0.5.3/globaliser/handle_global.cc:865-886 | an undefined struct that is neither pointer nor array, or the globals file |
| HgrWalk.Walker.HgrExpr | nsc-0.5.3/globaliser/node.cc:1588-1640 | in-place rewriting of an expression equals the specification's rewriting; an error is noticed exactly when some leaf has no mangled record |
| HgrWalk.Walker.CopyInitialiser | nsc-0.5.3/globaliser/node.cc:1125-1139 | the initialiser is walked once and copied for each of the 50 stacks |
| HgrWalk.Walker.MakeOldDefinition | nsc-0.5.3/globaliser/node.cc:1098-1142 | array form: the name is defined before the initialiser is walked |
| HgrWalk.Walker.MakeNewDefinition | nsc-0.5.3/globaliser/node.cc:1144-1194 | instance form: the initialiser is walked before the name is defined |
| HgrWalk.Walker.HandleGlobal | nsc-0.5.3/globaliser/node.cc:466-1037 | the whole new tables and the emitted definition, with the ignored, unneeded and colliding cases (which form it gets: `WhichForm`) |
| HgrWalk.Walker.HgrAutos | nsc-0.5.3/globaliser/node.cc:1385-1412 | all initialisers walked under all the declaration's names |
| HgrWalk.Walker.HgrStatic | nsc-0.5.3/globaliser/node.cc:1413-1419 | a static declaration and the count it assigns |
| HgrWalk.Walker.PopLocals | nsc-0.5.3/globaliser/node.cc:1543-1544 | the scope's locals, and only those, are popped |
| HgrWalk.Walker.PopStatics | nsc-0.5.3/globaliser/node.cc:1546-1551 | counted static locals are undefined and popped; an error when there are too few |
| HgrWalk.Walker.HgrStmts | nsc-0.5.3/globaliser/node.cc:1516-1551 | the loop over a statement list equals the recursive specification that the scope results are proved about |
| HgrWalk.Walker.HgrStep | nsc-0.5.3/globaliser/node.cc:1530-1541 | one statement of a list: names first, then the walk |
| HgrWalk.Walker.Hgr | nsc-0.5.3/globaliser/node.cc:1477-1587 | the walk of one statement |
| HgrWalk.Walker.DefineFunction | nsc-0.5.3/globaliser/handle_global.cc:197-222 | a function is declared once; a variable's name is an error |
| HgrWalk.Walker.HandleItem | nsc-0.5.3/globaliser/node.cc:1552-1587 | one file-scope item, with parameters pre-loaded into the locals and popped |
| HgrWalk.Walker.Globalise | nsc-0.5.3/globaliser/node.cc:1670-1691 | the whole file, item by item, equals the specification that the main results start from |
| InitialiserText.PatternProgress | nsc-0.5.3/globaliser/handle_global.cc:972-998 | replacing the first occurrence brings the next one nearer to the end, on every text: both replacement loops terminate on every input |
| InitialiserText.InstancesPattern | nsc-0.5.3/globaliser/handle_global.cc:972-985 | no replacement `_GLOBAL_k_` with k > 0 contains, or makes with the text around it, a new `_GLOBAL_0_` |
| InitialiserText.SlotsPattern | nsc-0.5.3/globaliser/handle_global.cc:987-998 | the same for `[k]` and `[get_stack_id()]` |
| InitialiserText.PiecesReplaced | nsc-0.5.3/globaliser/handle_global.cc:972-998 | pieces joined by the pattern become the same pieces joined by its replacement, if the pattern does not occur in those |
| InitialiserText.PiecesReplacedIff | nsc-0.5.3/globaliser/handle_global.cc:972-998 | and only then, whatever the pieces |
| InitialiserText.AllReplaced | nsc-0.5.3/globaliser/handle_global.cc:972-998 | when the loop ends the pattern occurs nowhere in the text |
| InitialiserText.AllPrefixesKept | nsc-0.5.3/globaliser/handle_global.cc:987-998 | replacing indices neither makes nor breaks an instance prefix of stack 0 |
| InitialiserText.CopyIsOfStack | nsc-0.5.3/globaliser/node.cc:1125-1139 | for every initialiser text: after both substitutions copy k names instance k and slot k wherever the walked text names instance 0 and the running stack's slot, and is otherwise the same, if and only if that wanted copy has neither `[get_stack_id()]` nor, for k > 0, `_GLOBAL_0_` in it |
| InitialiserCopies.PiecesWalked | nsc-0.5.3/globaliser/handle_global.cc:905-958 | the text of a walked initialiser, with the identifiers spelt as the code spells them, is the text of its pieces |
| InitialiserCopies.PiecesRendered | nsc-0.5.3/globaliser/handle_global.cc:972-998 | the pieces with stack k's prefix and index are the text of the expression that the specification gives stack k |
| InitialiserCopies.MarkIff | nsc-0.5.3/globaliser/handle_global.cc:905-958 | for k > 0, `_GLOBAL_0_` is in the wanted copy if and only if some name in it has it, or makes it with `global_` before it, or with the `_` before and the `_I` after an instance's name |
| InitialiserCopies.CopiedIff | nsc-0.5.3/globaliser/node.cc:1125-1139 | for every walked initialiser with C identifiers in it: the two substitutions give the text of the instantiated expression that the semantics is about, if and only if k is 0 or no name in it is confusing in that way |
| InitialiserCopies.CopyText | nsc-0.5.3/globaliser/node.cc:1125-1139 | the same of the code's own loops |
| InitialiserCopies.SourceCopiedIff | nsc-0.5.3/globaliser/node.cc:1125-1139 | in a scope that the walk knows: copy k of a source initialiser is the text of what C's scoping makes of it for stack k, if and only if k is 0 or no name that occurs is confusing |
| InitialiserCopies.MisleadingMisnamed | nsc-0.5.3/globaliser/handle_global.cc:972-985 | for any identifier `GLOBAL_0_...`, which does not begin with `global_` or `_GLOBAL_`: copy k of its address names another array |
| InitialiserCopies.OrdinaryNameChanged | nsc-0.5.3/globaliser/handle_global.cc:972-985 | `GLOBAL_0_z`: copy 1 says `global_GLOBAL_1_z[1]` |
| InitialiserCopies.NamesDiffer | nsc-0.5.3/globaliser/handle_global.cc:905-953 | identifiers of the language model that are written alike are the same |
| InitialiserCopies.SpeltOut | nsc-0.5.3/globaliser/handle_global.cc:905-953 | how references to x are spelt, for every x and all numbers: `x`, `global_x[get_stack_id()]`, `global_x[j]`, `(*_GLOBAL_x_n_A[get_stack_id()])`, `_GLOBAL_j_x_I` |
| InitialiserCopies.SpeltExpressions | nsc-0.5.3/globaliser/handle_global.cc:905-958 | and how expressions are |
| InitialiserText.ReplaceLoop | nsc-0.5.3/globaliser/handle_global.cc:972-998 | the find-and-replace loop terminates and computes the replacement of all occurrences |
| InitialiserText.ReplaceToplevel | nsc-0.5.3/globaliser/handle_global.cc:972-998 | the two substitutions one after the other; nothing is done to instances for stack 0 |
| ArrayElimination.NamedIsReferenced | nsc-0.5.3/globaliser/handle_global.cc:594-602 | an array that an emitted reference names is never one that the final pass takes for unreferenced, over every sequence of declarations and references, repeated declarations of one identifier included |
| ArrayElimination.Initialisers.RegisterInitialiser | nsc-0.5.3/globaliser/handle_global.cc:580-589 | one more array waits under its identifier |
| ArrayElimination.Initialisers.RegisterReference | nsc-0.5.3/globaliser/handle_global.cc:594-599 | a reference takes all of an identifier's arrays off the list |
| ArrayElimination.Initialisers.Handle | nsc-0.5.3/globaliser/node.cc:1066-1091 | the map holds exactly the extern arrays with no reference after them: kept by every event |
| ArrayElimination.Initialisers.SpecialCase | nsc-0.5.3/globaliser/handle_global.cc:605-620 | exactly those initialisers are blanked |
| ArrayElimination.File | nsc-0.5.3/globaliser/handle_global.cc:580-620 | after any whole file: an initialiser is blank if and only if its array is extern and unreferenced, and no array that a reference names is blank |
| Names.TextsAreDistinct | nsc-0.5.3/globaliser/handle_global.cc:905-953 | the four kinds of made-up identifier, and source identifiers that do not begin with `global_` or `_GLOBAL_`, never share a text unless they are the same identifier |
| Lexer.InputReturned | nsc-0.5.3/globaliser/ilex.cc:96-158 | from any input with balanced attributes: every token is returned once and in order, an identifier among the types known at the call as a typedef name, and what is printed followed by the `lex_text` of all tokens is the input with each gap's whitespace before its attributes and one space after each attribute |
| Lexer.TextsReturned | nsc-0.5.3/globaliser/ilex.cc:112-151 | each token by itself: `ws_text` is the whitespace after it; its `lex_text` and `attr_text` have the attributes after it, except that after ';' and '}' they go in the next token's `lex_text`, and in both tokens' `attr_text` |
| Lexer.OneReturned | nsc-0.5.3/globaliser/ilex.cc:96-158 | one call returns the held-back token and saves the next; text in hand plus text to come is unchanged |
| Lexer.UnitsTogether | nsc-0.5.3/globaliser/ilex.cc:133-151 | the text is the same whether the attributes go with the token before or after them |
| Lexer.GapScanned | nsc-0.5.3/globaliser/ilex.cc:102-115 | a gap of whitespace and attributes is scanned to its end, its texts separated |
| Lexer.Scanner.Lexscan | nsc-0.5.3/globaliser/ilex.cc:30-30 | takes one token off the stream, or the end of the file |
| Lexer.Scanner.ParseAttr | nsc-0.5.3/globaliser/ilex.cc:62-83 | reads to the parenthesis that closes the attribute |
| Lexer.Scanner.ReadGap | nsc-0.5.3/globaliser/ilex.cc:102-115 | reads to the next token |
| Lexer.Scanner.Yylex | nsc-0.5.3/globaliser/ilex.cc:96-158 | the returned token with its four texts, and the whole new state, first call included |
| PacketScan.ScanIsFilterIff | netanim-3.101/animator/animatorscene.cpp:652-670 | stopping at the first packet to come shows what a filter over the whole trace shows if and only if no packet on air stands behind one that is to come |
| PacketScan.ScanIsFilter | netanim-3.101/animator/animatorscene.cpp:652-670 | so they agree at every time on a trace ordered by start |
| PacketScan.AlwaysFilterIff | netanim-3.101/animator/animatorscene.cpp:652-670 | and if no packet ends before it starts, they agree at every time if and only if the trace is ordered by start |
| PacketScan.LatePacketMissed | netanim-3.101/animator/animatorscene.cpp:652-670 | two packets out of order: one on air is not shown |
| PacketScan.StoredIsOnAir | netanim-3.101/animator/animpacket.cpp:43-55 | what is stored for a transmission is on air when the transmission is: not at all from a node to itself, at the first bit's time if it is wireless or sent in less than 10 microseconds, from first bit sent to last bit received otherwise |
| PacketScan.VisibleIsShowing | netanim-3.101/animator/animatorscene.cpp:519-538 | after any events the packets in view are the transmissions that have arrived since the last system reset, by their place, that are on air and have none before them that is still to come |
| PacketScan.InOrderAllShow | netanim-3.101/animator/animatorscene.cpp:652-670 | and all that are on air, if they arrive in the order of their starts |
| PacketScan.CatchUp | netanim-3.101/animator/animatorscene.cpp:971-1023 | a scan from the stored cursor together with what is on display covers everything on air: why the cursor may pass packets still in flight |
| PacketScan.ScanFromCursor | netanim-3.101/animator/animatorscene.cpp:994-1020 | a scan may start anywhere behind packets that have all started |
| PacketScan.FirstFutureGrows | netanim-3.101/animator/animatorscene.cpp:652-670 | the first packet to come only moves forward with time |
| PacketScan.AnimatorScene.AddPacketRx | netanim-3.101/animator/animatorscene.cpp:519-538 | a node's transmission to itself changes nothing; any other is appended as a packet that is on air at its first bit's time if it is wireless or very short, and from first bit sent to last bit received otherwise; the cursor's invariant is kept |
| PacketScan.AnimatorScene.AddToPacketsToAnimate | netanim-3.101/animator/animatorscene.cpp:1026-1045 | adds one packet, once |
| PacketScan.AnimatorScene.PurgeOldPackets | netanim-3.101/animator/animatorscene.cpp:731-767 | what is left is what was there and has not expired; nothing when forced |
| PacketScan.AnimatorScene.PacketForwardScan | netanim-3.101/animator/animatorscene.cpp:971-1023 | what is added, where the cursor may end up, and the distance to the next start, for forward and backward ticks and after resets |
| PacketScan.AnimatorScene.TimeToUpdate | netanim-3.101/animator/animatorscene.cpp:702-728 | after a tick the display is what is on air up to the first packet to come, whatever the cursor and the display were |
| PacketScan.AnimatorScene.SoftReset | netanim-3.101/animator/animatorscene.cpp:1636-1645 | empties the display, keeps the trace |
| PacketScan.AnimatorScene.SystemReset | netanim-3.101/animator/animatorscene.cpp:1559-1613 | empties both |
| PacketScan.Drive | netanim-3.101/animator/animatorscene.cpp:971-1045 | over every run of ticks forward and backward, arrivals and resets: after each tick the display depends only on the packets known and the tick's time; from an empty scene it holds exactly the transmissions that arrived, in order, and are on air, with none before them still to come |
| FastForward.JumpReachesPacketIff | netanim-3.101/animator/animatormode.cpp:703-721 | the next tick is at or before the next packet's start if and only if the node delta is not 0 (as it is in a scene without nodes, where the rest of the trace is skipped) |
| FastForward.NextTimeIs | netanim-3.101/animator/animatormode.cpp:703-721 | the next tick in full: at the nearer of the next start and the next sample if both are to come, at the one that is if only one is, and past the end if none is or the node delta is 0 |
| FastForward.JumpLandsOnEvent | netanim-3.101/animator/animatormode.cpp:703-721 | a jump lands on a packet start or a node sample with no packet start in between, unless the node delta is 0 with a start to come, when there is no jump |
| FastForward.TickStands | netanim-3.101/animator/animatormode.cpp:680-737 | one tick keeps the record of a run: every start so far was shown at its tick, or the rest has just been skipped; and it uses up an event |
| FastForward.AnimatorMode.ResetSlot | netanim-3.101/animator/animatormode.cpp:473-490 | back at 0, stopped, showing what is on air at 0 |
| FastForward.AnimatorMode.UpdateRateTimeoutSlot | netanim-3.101/animator/animatormode.cpp:680-737 | what is shown and the whole new clock, at the fixed rate and in fast-forward, playing or not; completion exactly when the new time is past the end |
| FastForward.FastForwardRun | netanim-3.101/animator/animatormode.cpp:680-737 | for any node deltas whose positive values lead to a sample: a run from 0 ends; its ticks strictly rise, each showing what is on air; there is at most one tick more than there are distinct event times; and every packet, wireless ones included, is on display at a tick at its own start if and only if the node delta is not 0 at any tick with a start to come, as is some packet never on display otherwise; in particular if it is never 0, and, if it is always 0, exactly if all packets start at 0 |
| FastForward.PacketNeverShown | netanim-3.101/animator/animatormode.cpp:703-721 | a scene without nodes: a run that ends with its packet never shown |
| UpdateReplay.ReplaySettled | netanim-3.101/animator/linkupdatemanager.cpp:62-77 | applying a list of updates again changes nothing |
| UpdateReplay.LastOneWins | netanim-3.101/animator/linkupdatemanager.cpp:62-77 | after a replay an object shows its last update |
| UpdateReplay.EndSettled | netanim-3.101/animator/linkupdatemanager.cpp:62-77 | nor does applying any end of it again |
| UpdateReplay.Resume | netanim-3.101/animator/linkupdatemanager.cpp:50-80 | resuming at the stored iterator has the effect of starting over |
| UpdateReplay.OnlyLastSeekMatters | netanim-3.101/animator/linkupdatemanager.cpp:50-80 | after any sequence of seeks to times from 0 up, every object shows the plain replay for the last seek, when each object has an update before the first one later than 0 |
| UpdateReplay.CursorIsReplayIff | netanim-3.101/animator/nodeupdatemanager.cpp:35-69 | that condition is exact: it holds if and only if every such sequence of seeks shows the plain replay |
| UpdateReplay.StaleAfterSeekBack | netanim-3.101/animator/nodeupdatemanager.cpp:35-69 | otherwise playing to the end and seeking back to 0 shows something wrong |
| UpdateReplay.UpdateManager.AddUpdate | netanim-3.101/animator/linkupdatemanager.cpp:29-41 | appends, and makes the next seek start over |
| UpdateReplay.UpdateManager.UpdateTo | netanim-3.101/animator/linkupdatemanager.cpp:49-80 | a seek forward or backward makes of the display what replaying the list from its start would; and it reports exactly whether something was to be applied |
| UpdateReplay.UpdateManager.Apply | netanim-3.101/animator/linkupdatemanager.cpp:62-79 | the loop applies the updates from the stored iterator up to the first one later than t, and steps back before that |
| UpdateReplay.Drive | netanim-3.101/animator/linkupdatemanager.cpp:49-80 | any sequence of seeks on the manager is the same sequence of plain replays |
| WorkerPool.NextInv | ns-3.15/test.py:904-968 | every step of every thread, and the interrupt at any moment, keeps: each dispatched job and each stop marker is in exactly one place, no job is behind a stop marker, each report is one that its job can have |
| WorkerPool.RunInv | ns-3.15/test.py:904-968 | so it holds after every run, for every interleaving |
| WorkerPool.StopTakenOnlyWhenNoJobQueued | ns-3.15/test.py:1502-1505 | whenever a worker can take a stop marker, all jobs have been dispatched and none is queued |
| WorkerPool.HandledInRun | ns-3.15/test.py:904-930 | in any run a worker that handles a job after the signal reports it interrupted; without one, it reports a job to be skipped as skipped and runs any other; a stop marker ends it |
| WorkerPool.ReportsHappened | ns-3.15/test.py:904-968 | in any run, every report in a worker's hands, in the queue or collected tells what some worker did with that very job: it handled it after the signal, skipped it before, or ended it with that exit code |
| WorkerPool.StepsRunOut | ns-3.15/test.py:904-968 | each step uses up some of the steps that remain |
| WorkerPool.RunsAreBounded | ns-3.15/test.py:904-968 | every run has at most 6 steps per job, 4 per worker and the signal |
| WorkerPool.NoDeadlock | ns-3.15/test.py:1519-1520 | in every reachable state short of the end some thread can move without a signal |
| WorkerPool.FinishedIsClean | ns-3.15/test.py:1660-1661 | at the end each job has been collected exactly once, both queues are empty and every worker has ended |
| WorkerPool.MaximalRunFinishes | ns-3.15/test.py:1660-1661 | a run that cannot go on has reached that end |
| WorkerPool.CollectResults | ns-3.15/test.py:1514-1546 | passed is the number of reports with exit code 0, failed with 1, valgrind errors with 2, crashed with any other, skipped those that were skipped; interrupted ones are dropped |
| WorkerPool.CountsAre | ns-3.15/test.py:1535-1546 | the counts by outcome: 0 passed, 1 failed, 2 a valgrind error, any other code crashed |
| WorkerPool.EveryReportCounted | ns-3.15/test.py:1519-1546 | the five counters and the dropped reports add up to the reports |
| WorkerPool.ExitCodeIff | ns-3.15/test.py:1713-1716 | 0 if and only if every report is a pass or a skip |
| WorkerPool.ExitCodeMeans | ns-3.15/test.py:1713-1716 | for reports on each job once: 0 if and only if every job to be skipped came back skipped and every other one exited with 0, none interrupted |
| WorkerPool.ResultsOfRun | ns-3.15/test.py:1713-1716 | at the end of every maximal run: the numbers of jobs that came back with code 0, with 1, with 2, with another code, skipped and interrupted add up to the jobs, and the exit code is 0 if each job to be skipped was and each other one exited with 0, and 1 otherwise |
| TypePaths.RecordsSimpleWalks | ns-3.15/utils/print-introspected-doxygen.cc:185-295 | on every finite type graph, cyclic or not, what is recorded from a root is exactly the sequences of such steps that meet no type twice, each with the type it ends in and its text |
| TypePaths.EdgesAreSteps | ns-3.15/utils/print-introspected-doxygen.cc:204-295 | the search follows exactly these steps out of a type: a pointer attribute, unless to Object itself, by its name; a container attribute by its name and '/[i]'; a type that the first is an ancestor of, and the other end of an aggregation, by '$' and the name |
| TypePaths.RenderSpells | ns-3.15/utils/print-introspected-doxygen.cc:139-150 | a path's text is its steps in order, with '/' before each |
| TypePaths.WalkFrom | ns-3.15/utils/print-introspected-doxygen.cc:185-295 | every recorded entry comes from a simple walk that avoids the stack |
| TypePaths.WalkIsGathered | ns-3.15/utils/print-introspected-doxygen.cc:185-295 | every simple walk that avoids the stack is recorded |
| TypePaths.SimpleMeansDistinct | ns-3.15/utils/print-introspected-doxygen.cc:158-168 | simple, read without recursion: all types of the walk are different and off the stack |
| TypePaths.FewerFree | ns-3.15/utils/print-introspected-doxygen.cc:185-295 | each level of the search leaves fewer registered types off the stack: why it ends |
| TypePaths.AscendingIsCanonical | ns-3.15/utils/print-introspected-doxygen.cc:185-192 | a sorted list without duplicates is determined by its entries |
| TypePaths.TextBeforeIff | ns-3.15/utils/print-introspected-doxygen.cc:190-190 | one text is before another if it is a shorter start of it or has the smaller character where they first differ |
| TypePaths.Sort | ns-3.15/utils/print-introspected-doxygen.cc:190-190 | a sorted rearrangement |
| TypePaths.Unique | ns-3.15/utils/print-introspected-doxygen.cc:191-191 | a sorted list without its repetitions, with the same entries |
| TypePaths.StaticInformation.GetCurrentPath | ns-3.15/utils/print-introspected-doxygen.cc:139-150 | the path as text |
| TypePaths.StaticInformation.HasAlreadyBeenProcessed | ns-3.15/utils/print-introspected-doxygen.cc:158-168 | whether a type is on the stack |
| TypePaths.StaticInformation.DoGather | ns-3.15/utils/print-introspected-doxygen.cc:195-295 | ends on every graph, restores both stacks, and appends what the specification says |
| TypePaths.StaticInformation.Follow | ns-3.15/utils/print-introspected-doxygen.cc:195-240 | one edge: push, search, pop |
| TypePaths.StaticInformation.FollowAttributes | ns-3.15/utils/print-introspected-doxygen.cc:204-241 | attributes that point to a type other than Object, and containers, in order |
| TypePaths.StaticInformation.FollowChildren | ns-3.15/utils/print-introspected-doxygen.cc:242-258 | types derived from this one, in order of registration |
| TypePaths.StaticInformation.FollowAggregates | ns-3.15/utils/print-introspected-doxygen.cc:259-295 | aggregated types, from either end |
| TypePaths.StaticInformation.Gather | ns-3.15/utils/print-introspected-doxygen.cc:185-192 | the output is sorted by type and then text, without duplicates, and holds the old entries and those of all sequences of steps from the root that meet no type twice |
| TypePaths.StaticInformation.Get | ns-3.15/utils/print-introspected-doxygen.cc:170-183 | exactly the paths of one type, in order |
| IPv6Mask.MaskValue | nsc-0.5.3/omnetpp/IPv6Address.cc:260-301 | the mask of n bits over m words is 2^(32m) - 2^(32m - n): 2^128 - 2^(128 - n) for an address |
| IPv6Mask.PrefixValue | nsc-0.5.3/omnetpp/IPv6Address.cc:303-322 | word by word, a prefix keeps the bits of the number above its last 32m - n, and a suffix keeps those |
| IPv6Mask.PrefixAndSuffix | nsc-0.5.3/omnetpp/IPv6Address.cc:303-322 | they are what division by 2^(128 - n) rounds down to and leaves, and they add up to the address |
| IPv6Mask.JoinedValue | nsc-0.5.3/omnetpp/IPv6Address.cc:324-351 | a joined address is the sum of one prefix and the other suffix, and has both |
| IPv6Mask.SetThenMatches | nsc-0.5.3/omnetpp/IPv6Address.cc:324-371 | after setting a prefix the address matches it on n bits, and its suffix is untouched |
| IPv6Mask.MatchesShorter | nsc-0.5.3/omnetpp/IPv6Address.cc:361-371 | a match on n bits is a match on every m <= n, and on all bits is equality |
| IPv6Mask.PrefixDecides | nsc-0.5.3/omnetpp/IPv6Address.cc:361-371 | equal prefixes, word by word, are equal quotients of the numbers: hence an equivalence |
| IPv6Mask.MaskedIs | nsc-0.5.3/omnetpp/IPv6Address.cc:303-311 | masking every word gives the prefix |
| IPv6Mask.UnmaskedIs | nsc-0.5.3/omnetpp/IPv6Address.cc:313-322 | masking with the complement gives the suffix |
| IPv6Mask.JoinedIs | nsc-0.5.3/omnetpp/IPv6Address.cc:324-351 | the bitwise merge joins a prefix and a suffix |
| IPv6Mask.MatchedIs | nsc-0.5.3/omnetpp/IPv6Address.cc:361-371 | all masked differences vanish if and only if the prefixes are equal |
| IPv6Mask.IPv6Address.ConstructMask | nsc-0.5.3/omnetpp/IPv6Address.cc:260-301 | all five cases of the code write the mask of n bits |
| IPv6Mask.IPv6Address.GetPrefix | nsc-0.5.3/omnetpp/IPv6Address.cc:303-311 | a new address with the prefix |
| IPv6Mask.IPv6Address.GetSuffix | nsc-0.5.3/omnetpp/IPv6Address.cc:313-322 | a new address with the suffix |
| IPv6Mask.IPv6Address.SetPrefix | nsc-0.5.3/omnetpp/IPv6Address.cc:324-337 | joins in place, also when both addresses are the same object |
| IPv6Mask.IPv6Address.SetSuffix | nsc-0.5.3/omnetpp/IPv6Address.cc:339-351 | likewise for the suffix |
| IPv6Mask.IPv6Address.Matches | nsc-0.5.3/omnetpp/IPv6Address.cc:361-371 | true if and only if the prefixes are equal |
| Bits.AndHighMask | nsc-0.5.3/omnetpp/IPv6Address.cc:303-311 | a bitwise and with ones from bit s up rounds a word down to a multiple of 2^s |
| Bits.XorUnderHighMask | nsc-0.5.3/omnetpp/IPv6Address.cc:366-370 | the masked exclusive or of two words is 0 if and only if they agree above bit s |
| Bits.OrAdds | nsc-0.5.3/omnetpp/IPv6Address.cc:332-336 | a bitwise or of numbers with no bit in common is their sum |
| IPv6Text.RoundTrip | nsc-0.5.3/omnetpp/IPv6Address.cc:49-120 | every address is parsed back from the text that is printed for it |
| IPv6Text.TextsDiffer | nsc-0.5.3/omnetpp/IPv6Address.cc:178-205 | no two addresses have the same text |
| IPv6Text.CaseIsIgnoredIff | nsc-0.5.3/omnetpp/IPv6Address.cc:49-120 | two texts that differ in the case of the letters a to f only are read alike, addresses or not, if and only if neither or both of them are `<unspec>` |
| IPv6Text.AnyCaseRoundTrip | nsc-0.5.3/omnetpp/IPv6Address.cc:49-120 | so every address is parsed back from its text in any case |
| IPv6Text.ConstantsParsed | nsc-0.5.3/omnetpp/IPv6Address.cc:43-44 | two constants of the source, in upper case: `FE80::` and `FF02:0:0:0:0:1:FF00:0` |
| IPv6Text.HexIsCanonical | nsc-0.5.3/omnetpp/IPv6Address.cc:197-203 | a number is printed in lower case without leading zeros, and is the value of what is printed |
| IPv6Text.EightNumbers | nsc-0.5.3/omnetpp/IPv6Address.cc:197-203 | an address without a gap is printed as eight numbers with colons between them |
| IPv6Text.NumberReadIff | nsc-0.5.3/omnetpp/IPv6Address.cc:53-68 | a run of digits is read as a number if and only if its value is below 2^64 and its lowest 32 bits are at most 0xFFFF; those are the number |
| IPv6Text.TooLargeAccepted | nsc-0.5.3/omnetpp/IPv6Address.cc:55-63 | so any number that is 2^32 too large is taken for itself without that |
| IPv6Text.PrintedIsParsed | nsc-0.5.3/omnetpp/IPv6Address.cc:71-109 | the text with '::' for any run of zeros, wherever it is put, is parsed back |
| IPv6Text.ParseJoin | nsc-0.5.3/omnetpp/IPv6Address.cc:49-69 | numbers joined by colons are read back in front of any text that does not begin with a digit |
| IPv6Text.GapIsUnique | nsc-0.5.3/omnetpp/IPv6Address.cc:150-176 | there is one leftmost longest run of two or more zeros |
| IPv6Text.GapIff | nsc-0.5.3/omnetpp/IPv6Address.cc:150-176 | what a gap is, in terms of the numbers themselves |
| IPv6Text.FindGap | nsc-0.5.3/omnetpp/IPv6Address.cc:150-176 | finds it, or an empty gap at the front if there is none (section 4.2 of RFC 5952) |
| IPv6Text.Strtoul | nsc-0.5.3/omnetpp/IPv6Address.cc:49-69 | the longest run of hexadecimal digits, its value saturated to 64 bits and cut to 32 |
| IPv6Text.ReadOctal | nsc-0.5.3/omnetpp/IPv6Address.cc:49-69 | one number of the loop: what is read and what is left to read are what the specification reads |
| IPv6Text.ReadOctals | nsc-0.5.3/omnetpp/IPv6Address.cc:49-69 | at most eight numbers and where the text goes on |
| IPv6Text.Merge | nsc-0.5.3/omnetpp/IPv6Address.cc:83-103 | moves the numbers after '::' to the end, with zeros before them |
| IPv6Text.ReadAddress | nsc-0.5.3/omnetpp/IPv6Address.cc:71-109 | accepts exactly what the grammar accepts, writes the four words then and nothing otherwise |
| IPv6Text.TryParseText | nsc-0.5.3/omnetpp/IPv6Address.cc:111-120 | accepts exactly an address and nothing after it; each word is a number and 2^16 times the one before it |
| IPv6Text.Str | nsc-0.5.3/omnetpp/IPv6Address.cc:178-205 | the text of section 2.2 of RFC 3513 with the leftmost longest gap replaced; `<unspec>` for the unspecified address |
| IPv6Text.PrintAndParse | nsc-0.5.3/omnetpp/IPv6Address.cc:111-205 | printing and parsing with the code's own steps gives back all four words |
| IPv4.PrefixIffAgree | nsc-0.5.3/omnetpp/IPAddress.cc:256-290 | two addresses agree on a prefix of n bits if and only if at least n leading bits match |
| IPv4.SamePrefixIff | nsc-0.5.3/omnetpp/IPAddress.cc:302-316 | they do if and only if cutting off all later bits makes them equal |
| IPv4.ThreeWays | nsc-0.5.3/omnetpp/IPAddress.cc:256-316 | prefixMatches, numMatchingPrefixBits and keepFirstBits give the same answer, for every n up to 32 |
| IPv4.MaskedSame | nsc-0.5.3/omnetpp/IPAddress.cc:256-272 | comparing under the mask is comparing prefixes |
| IPv4.KeptBytes | nsc-0.5.3/omnetpp/IPAddress.cc:302-316 | clearing bits byte by byte cuts the 32-bit number |
| IPv4.IPAddress.GetInt | nsc-0.5.3/omnetpp/IPAddress.cc:133-139 | the 32-bit number of the four bytes |
| IPv4.IPAddress.PrefixMatches | nsc-0.5.3/omnetpp/IPAddress.cc:256-272 | true if and only if the first n bits agree; n below 0 is 0, above 32 is 32 |
| IPv4.IPAddress.NumMatchingPrefixBits | nsc-0.5.3/omnetpp/IPAddress.cc:274-290 | the largest n on which the addresses agree |
| IPv4.IPAddress.KeepFirstBits | nsc-0.5.3/omnetpp/IPAddress.cc:302-316 | the first n bits of the number are those of the old one and the others are 0; from 32 on, nothing changes |
| IPv4.ParsedIff | nsc-0.5.3/omnetpp/IPAddress.cc:85-122 | a text is accepted, with these bytes, if and only if it says that there is no address or is four digit runs joined by dots, each with a number that modulo 2^32 is at most 255 or at least 2^31; the byte is the number modulo 256 |
| IPv4.IntIsWrapped | nsc-0.5.3/omnetpp/IPAddress.cc:94-108 | the int that the digit loop computes, wrapping at each digit, is the decimal number of the whole run wrapped once |
| IPv4.SmallIff | nsc-0.5.3/omnetpp/IPAddress.cc:101-108 | so the test against 255 is a test of the number modulo 2^32, and the stored byte is the number modulo 256 |
| IPv4.WrappedAccepted | nsc-0.5.3/omnetpp/IPAddress.cc:85-122 | four such numbers in decimal, however large, are accepted for their last bytes |
| IPv4.TooLargeAccepted | nsc-0.5.3/omnetpp/IPAddress.cc:101-108 | 4294967296.0.0.1 is taken for 0.0.0.1 |
| IPv4.PartsParse | nsc-0.5.3/omnetpp/IPAddress.cc:85-122 | such texts are accepted |
| IPv4.ParsedHasParts | nsc-0.5.3/omnetpp/IPAddress.cc:85-122 | nothing else is |
| IPv4.RoundTrip | nsc-0.5.3/omnetpp/IPAddress.cc:150-158 | every address is parsed back from its dotted-decimal text |
| IPv4.ReadNumber | nsc-0.5.3/omnetpp/IPAddress.cc:94-108 | a run of digits and its int, wrap-around included |
| IPv4.ParseText | nsc-0.5.3/omnetpp/IPAddress.cc:85-122 | accepts exactly what the specification accepts and stores its bytes |
| ShellPipeline.ParsedAlternates | ns-3.15/waf-tools/shellcmd.py:120-200 | every accepted token list parses to commands and operators in turn, ending in a command; `cd` is only before `&&`, and a command's output is piped if and only if a pipe follows |
| ShellPipeline.StepValid | ns-3.15/waf-tools/shellcmd.py:128-195 | each token keeps that |
| ShellPipeline.TokensParse | ns-3.15/waf-tools/shellcmd.py:120-200 | every such list of commands is parsed back from its own tokens, with assignments, arguments and redirections |
| ShellPipeline.AcceptedReadsBack | ns-3.15/waf-tools/shellcmd.py:120-200 | and whatever token list is accepted, printing its commands in the fixed order and parsing that gives the same list |
| ShellPipeline.EnvVarIff | ns-3.15/waf-tools/shellcmd.py:23-23 | a token is an assignment of a value to a name if and only if it is the name, of letters, digits and underscores, '=' and the value, without white space, with or without a newline at the end |
| ShellPipeline.RedirectedOnce | ns-3.15/waf-tools/shellcmd.py:152-195 | to redirect an output or the input twice, or to pipe a redirected output, is refused |
| ShellPipeline.MalformedRefused | ns-3.15/waf-tools/shellcmd.py:136-181 | a second directory, an assignment before `cd` and a missing command are refused |
| ShellPipeline.Pipeline.Parse | ns-3.15/waf-tools/shellcmd.py:120-200 | accepts exactly when no assertion fails, with this list |
| ShellRun.ExecPipedCommands | ns-3.15/waf-tools/shellcmd.py:202-211 | the status of a pipe is that of its last command |
| ShellRun.RunPipeline | ns-3.15/waf-tools/shellcmd.py:213-345 | the loop over the list starts the processes and returns the code that the recursive form does |
| ShellRun.JoinedPath | ns-3.15/waf-tools/shellcmd.py:227-227 | an absolute directory stands for itself; a relative one is put behind the current one with one '/' between them |
| ShellRun.JoinAssociates | ns-3.15/waf-tools/shellcmd.py:227-227 | two changes of directory one after the other are one change to the joined path |
| ShellRun.LineOfIsLine | ns-3.15/waf-tools/shellcmd.py:213-345 | a list with good changes of directory is the flattening of its structure, nothing lost or reordered |
| ShellRun.LoopEvaluates | ns-3.15/waf-tools/shellcmd.py:213-345 | from any point of a run the loop does what the right-nested short-circuit evaluator does: same processes in the same order with the same inputs and directories, same exit code |
| ShellRun.RunEvaluates | ns-3.15/waf-tools/shellcmd.py:213-345 | so for every accepted line with good changes of directory |
| ShellRun.ExitsIff | ns-3.15/waf-tools/shellcmd.py:222-237 | an accepted line runs to an exit code whatever its commands return if and only if every `cd` has a directory and a command after it |
| ShellRun.BadCdReached | ns-3.15/waf-tools/shellcmd.py:222-237 | for any other line, the codes with which the bad `cd` is reached, where it raises an exception |
| ShellRun.LikeShellIff | ns-3.15/waf-tools/shellcmd.py:213-345 | against a shell defined on the parsed list by itself (left-associative && and \|\|, a `cd` is a command that succeeds, one in a pipe moves only itself, redirections before pipes and in the command's directory): an accepted line starts the same processes and returns the same code, whatever the commands return, if and only if every `cd` has a directory and a command after it, behind every pipe is a command without an input file, files redirected to or from behind a `cd` have absolute names, no && (not even a `cd`'s) follows a \|\|, and no \|\| follows a && that has a command before it |
| ShellRun.UnmixedAgree | ns-3.15/waf-tools/shellcmd.py:213-345 | under that condition the two agree from any point of a run at which they are in step |
| ShellRun.StopDiffers | ns-3.15/waf-tools/shellcmd.py:305-345 | operators mixed: codes with which the interpreter stops and the shell goes on |
| ShellRun.PipeDiffers | ns-3.15/waf-tools/shellcmd.py:224-248 | something behind a pipe that does not read from it: codes with which it is reached and the next process reads from different places |
| ShellRun.FilesDiffer | ns-3.15/waf-tools/shellcmd.py:241-270 | a relative file name behind a `cd`: codes with which it is reached, and names another file |
| ShellRun.OrThenCd | ns-3.15/waf-tools/shellcmd.py:305-345 | `a \|\| cd d && b` with a returning 0: the interpreter starts one process, a shell two |
| ShellRun.CdBehindPipe | ns-3.15/waf-tools/shellcmd.py:224-248 | `a \| cd d && b`: b reads from a and runs in d; in a shell neither |
| ShellRun.FileBehindCd | ns-3.15/waf-tools/shellcmd.py:250-258 | `cd d && a > f`: f is opened where the interpreter runs; in a shell it is in d |

## Left out

- Stacks.MeaningPreserved: for programs that the walk supports (`SupportedProgram`): at most one static declaration per scope (`ListsRestoredIff`), no static local over a live automatic variable or static local of its name (`StaticSeenIff`, `LookupsRestoredIff`), with a function's name (`FunctionKeptIff`) or with an ignored name (`StaticStaysIff`; one whose declaration has other identifiers that are not ignored is rewritten all the same, and left out), no initialiser that mentions a later declarator (`AutosAgreeIff`) or, for the first instances of an object, the object itself (`SelfMentionResolvedIff`), all names in scope, variables and functions named apart; and each object declared in one form (`PlacementExistsIff`).
- Stacks.StacksAreApart: like `OneProgramIsMany`, for globals files that ignore no variable; with ignored variables `MeaningPreserved` still holds, but stacks share those.
- Stacks.LoadPreserved: when no ignored variable's initialiser names a rewritten one; such an initialiser refers to stack 0's objects.
- The C that is modelled has integers and pointers as values: an array or a struct is one cell whose kind decides its form, and the instances of an object are one family of cells. A static or file-scope declaration has one declarator.
- Calls are by function name; an expression has no effects of its own. `&` of a struct that is not yet defined, function pointers, `typeof`, enumerations, void declarations, prototypes and local extern declarations, `for` declarations and attributes in the tree are not in the language. Nor are array bounds, `sizeof` and struct members declared in place, whose identifiers the code counts when it asks whether a declaration has any that is not ignored.
- The parser grammar, `$section` and linker sets, reading of the globals file, and reports and warnings.
- InitialiserCopies.CopiedIff: the initialisers of the modelled C; `CopyIsOfStack` is about every text.
- Stacks.OneProgramIsMany: about the expressions of the copies; that their text says the same is `SourceCopiedIff`, with its condition on names.
- ArrayElimination.File: an event is one parsed declaration or reference at file scope; static locals' arrays never enter the map.
- Lexer.InputReturned: for attributes whose parentheses are balanced. On others the code stops at an assertion or never returns.
- Qt, drawing, packet metadata, and elapsed time between ticks.
- FastForward.FastForwardRun: the mobility manager is a function from the time whose positive values are distances to later samples; the trace is ordered by start and lies within the simulation time.
- UpdateReplay: the managers' `systemReset`; the drawing of what an update sets.
- WorkerPool: how a job is run is the exit code of the `Finish` action; building, valgrind, reports and files. A signal is handled between two actions.
- TypePaths: the type registry is given, with names as they appear in a path (the doubling of '::' with a marker is not modelled); the library's sort is an insertion sort with the same contract.
- IPv6Text.Strtoul: a sign, spaces or "0x" before the digits, which the library function would accept.
- `tryParseAddrWithPrefix`, scopes, `netmaskLength`, address classes and `IPvXAddress`.
- ShellPipeline.TokensParse: for commands whose own words are not read as operators, redirections or assignments.
- ShellRun.LikeShellIff: the shell runs the list that the parser made, so words are taken as they are and the order of redirections within one command, which the parser does not keep, is not judged. Directories and files exist, and names are compared as text: `cd .` is a change of directory.
- ShellRun: splitting of a text into tokens, opening and closing of files, and the verbose output. An exit code is a function of the processes started so far.
- `NSC_TCP`, `grid.py`, the designer, build scripts and the remaining tools.
