# bolt_ui workspace model in Dafny

bolt_ui is a browser mock-up of an AI coding workspace. Most of it is visual
composition. This project models the sequential logic under the views:

- **Workspace tree** (`FileTree`, `Seed`): a read-only forest of files and
  folders seeded once by the application state, and the depth-first `findFile`
  lookup that the tab strip and the editor use.
- **Editor tabs** (`EditorTabs`): the open tab ids and the active file id of
  `CodeSection`, with select, close and tab-click. The invariant is that no tab
  appears twice and the active file is null or an open tab.
- **Explorer and gutter** (`Explorer`):
  - the default expansion of each explorer row, and what a click does;
  - the file-icon suffix table;
  - the line count of the editor gutter.
- **Integrations dialog** (`Integrations`):
  - the Supabase and GitHub records;
  - the guarded connect handlers and disconnect by id;
  - the "available" and "connected" tabs, which partition the records.
- **Terminal** (`Terminal`): an append-only transcript that echoes non-blank
  commands, and the precedence order used to colour its lines.
- **Chat panels** (`Chat`): the shared message list of the application state,
  and the send guard with its busy flag in both chat panels. Each reply is an
  explicit completion event.

`Text` holds the JavaScript string operations the source relies on:
- `trim` with the ECMAScript white-space set;
- `startsWith`, `endsWith` and `includes`;
- `split` on one character;
- ASCII lower-casing.

`Wrappers` holds `Option`.

Each handler is a pure function from state to state. Each view's event stream
is a `Step`/`Run` pair over a sequence of events. Clock readings are passed in
as parameters: message ids and timestamps (`at`), and the integration sync
time (`now`). The workspace tree appears only as an argument, and no operation
returns a changed tree. That matches the source, whose state hook for the tree
exposes no setter.

## Model

| member | source | states |
|---|---|---|
| FileTree.Find | src/components/code/CodeSection.tsx:97-109 | A hit carries the requested id and is a node of the forest, at any depth. |
| FileTree.FindIsFirstInPreorder | src/components/code/CodeSection.tsx:97-109 | The lookup returns the first node with the id in depth-first pre-order. Siblings are visited in array order, and a folder's children come before its next sibling. |
| FileTree.FindNoneIffAbsent | src/components/code/CodeSection.tsx:97-109 | The lookup returns null exactly when the id occurs nowhere in the forest, nested folders included. |
| FileTree.FindUnique | src/components/code/CodeSection.tsx:97-109 | When no other node of the forest carries the same id, the lookup returns that node. |
| FileTree.FindAllUnique | src/components/code/CodeSection.tsx:97-109 | When ids are unique across the whole forest, every node is what the lookup returns for its own id. |
| FileTree.Resolve | src/components/code/CodeSection.tsx:83-96 | A null active id resolves to null. Any other id resolves to the first node carrying it in depth-first pre-order, and to null exactly when no node of the forest carries it. |
| Seed.SeedPreorder | src/contexts/AppStateContext.tsx:45-410 | The pre-order walk of the seed visits these 22 ids in this order: `bolt`, `src`, `app-context`, then the `hooks` and `types` folders, then the eleven top-level files. |
| Seed.SeedIdsUnique | src/contexts/AppStateContext.tsx:45-410 | The seed has 22 nodes, and no id repeats anywhere in the tree, not just among siblings. |
| Seed.SeedPathsWellFormed | src/contexts/AppStateContext.tsx:45-410 | Every node's path is its parent's path, a slash and its name. Top-level nodes have a slash and their name. |
| Seed.SeedShape | src/contexts/AppStateContext.tsx:45-52 | Every seeded file has text, and `.bolt` is a folder with no children. |
| Seed.InitialActiveIsFile | src/contexts/AppStateContext.tsx:40-63 | The initial active id `app-context` resolves to the file `/src/AppContext.tsx`. |
| EditorTabs.Last | src/components/code/CodeSection.tsx:78-79 | The last remaining tab, or none exactly when no tab remains. |
| EditorTabs.Remove | src/components/code/CodeSection.tsx:76 | The filter drops the id and keeps every other entry, and no new entry appears. |
| EditorTabs.RemoveKeepsOrder | src/components/code/CodeSection.tsx:76 | Removing the one occurrence at position i leaves the tabs before it followed by the tabs after it, so relative order is kept. |
| EditorTabs.RemoveNoDuplicates | src/components/code/CodeSection.tsx:76 | Filtering keeps the tab list free of duplicates. |
| EditorTabs.RemoveAbsent | src/components/code/CodeSection.tsx:76 | Filtering out an id that is not there leaves the list as it was. |
| EditorTabs.RemoveAppend | src/components/code/CodeSection.tsx:76 | Filtering a joined list equals filtering each part and joining the results. |
| EditorTabs.Select | src/components/code/CodeSection.tsx:67-72 | The file becomes active and is an open tab. The old tabs stay as a prefix, and at most one tab is added. The list is unchanged exactly when the file was already open. |
| EditorTabs.Close | src/components/code/CodeSection.tsx:74-81 | The id is no longer open, and every other id keeps its membership. The focus moves to the last remaining tab, or none, when the closed tab was active. Otherwise the focus is unchanged. |
| EditorTabs.ClickTab | src/components/code/CodeSection.tsx:177 | A click on a tab focuses that file and leaves the strip as it is. |
| EditorTabs.CloseAt | src/components/code/CodeSection.tsx:74-81 | In a valid session, closing the tab at position i leaves the others in order. The focus goes to the last of them exactly when the closed tab was active. |
| EditorTabs.SelectValid | src/components/code/CodeSection.tsx:67-72 | Selecting keeps the invariant: no duplicate tab, and the active file is null or open. |
| EditorTabs.CloseValid | src/components/code/CodeSection.tsx:74-81 | Closing keeps the invariant. |
| EditorTabs.InitialValid | src/components/code/CodeSection.tsx:64 | The starting strip, `app-context` open and active, satisfies the invariant. |
| EditorTabs.RunValid | src/components/code/CodeSection.tsx:67-81 | Any sequence of selects, closes and tab clicks from a valid session leads to a valid session. |
| EditorTabs.SelectIdempotent | src/components/code/CodeSection.tsx:67-72 | Selecting the same file twice equals selecting it once. |
| EditorTabs.CloseIdempotent | src/components/code/CodeSection.tsx:74-81 | Closing the same tab twice equals closing it once. |
| EditorTabs.CloseUnrelated | src/components/code/CodeSection.tsx:74-81 | Closing an id that is neither open nor active changes nothing. |
| EditorTabs.SelectFresh | src/components/code/CodeSection.tsx:67-72 | Selecting distinct files that are not yet open appends them in selection order and focuses the last one. |
| EditorTabs.RenderedTabsExact | src/components/code/CodeSection.tsx:170-172 | When every open id resolves, the strip draws one tab per open id, in order. |
| EditorTabs.RenderedTabsSkipDangling | src/components/code/CodeSection.tsx:170-172 | An open id that does not resolve in the tree gets no tab, and only it is skipped. The strip equals the one drawn for the open list without that id. |
| EditorTabs.InitialTabsAreFiles | src/contexts/AppStateContext.tsx:40 | The initial open and active ids name a file of the seed. |
| EditorTabs.SelectFileKeepsFiles | src/components/code/CodeSection.tsx:14-16 | The explorer only selects file rows, so every open and active id keeps naming a file. |
| EditorTabs.CloseAndClickKeepFiles | src/components/code/CodeSection.tsx:74-81 | Closing a tab or clicking one never introduces an id that does not name a file. |
| EditorTabs.WalkthroughOpens | src/components/code/CodeSection.tsx:67-72 | Selecting a.ts, b.ts and readme.md gives three tabs in that order, with readme.md active. |
| EditorTabs.WalkthroughCloses | src/components/code/CodeSection.tsx:74-81 | Closing the inactive b.ts keeps the focus on readme.md. Closing the active readme.md then moves the focus to a.ts. |
| Explorer.NewRow | src/components/code/CodeSection.tsx:12 | A row starts expanded exactly when its level is below 2. |
| Explorer.ClickRow | src/components/code/CodeSection.tsx:14-20 | A click on a file row selects the file and leaves the row alone. A click on a folder row flips its expansion and leaves the tabs alone. |
| Explorer.FolderClickTwice | src/components/code/CodeSection.tsx:14-20 | Two clicks on a folder row restore it. |
| Explorer.ChildRows | src/components/code/CodeSection.tsx:51-57 | Only an expanded folder shows its children, one row per child, one level deeper. |
| Explorer.FileIconIsFirstRule | src/components/code/CodeSection.tsx:22-30 | The icon is the one of the first matching suffix in the fixed order `.tsx/.jsx`, `.ts/.js`, `.css`, `.json`, `.html`, `.md`, and the page icon otherwise. |
| Explorer.SuffixesExclusive | src/components/code/CodeSection.tsx:22-30 | No name ends with two suffixes of the table, so the order of the tests never changes the result. |
| Explorer.GutterLines | src/components/code/CodeSection.tsx:200-209 | A file with text gets one gutter line per newline plus one. Anything else gets 50. |
| Explorer.EditorGutter | src/components/code/CodeSection.tsx:111 | An active file with text shows one line per newline plus one. No active file, or an active id missing from the tree, shows 50 lines. It never shows fewer than one. |
| Chat.AddChatMessage | src/contexts/AppStateContext.tsx:412-419 | Exactly one message is added at the end, carrying the given role and text. Earlier messages are unchanged. |
| Chat.Send | src/components/chat/ChatSidebar.tsx:9-27 | A send with a blank input or a pending reply changes nothing. Otherwise the raw input is posted as the user's message, the input is cleared, the busy flag is raised and the reply is scheduled. |
| Chat.Complete | src/components/chat/ChatInterface.tsx:32-38 | The reply adds exactly one assistant message carrying the scheduled text and lowers the busy flag. |
| Chat.Edit | src/components/chat/ChatInterface.tsx:90-95 | Typing is ignored while a reply is pending. Otherwise only the input changes. |
| Chat.KeyPress | src/components/chat/ChatInterface.tsx:42-47 | Enter without Shift sends. Any other key, Shift+Enter included, does nothing. |
| Chat.AcceptsIffNotBlankAndIdle | src/components/chat/ChatInterface.tsx:20 | A send is accepted exactly when the input is not all white space and no reply is pending. |
| Chat.DisabledIffRejected | src/components/chat/ChatInterface.tsx:99 | The send button is disabled exactly when a send would change nothing. |
| Chat.ReplyVerbCreateIff | src/components/chat/ChatInterface.tsx:35 | The reply says "create" exactly when the message contains "create" in some mix of ASCII cases, and "update" otherwise. |
| Chat.RunDialogue | src/components/chat/ChatInterface.tsx:19-40 | Over any events, messages alternate between user and assistant, and each assistant message answers the one before it. The busy flag is up exactly when the last question is unanswered. |
| Chat.SidebarDialogue | src/components/chat/ChatSidebar.tsx:19-25 | In the sidebar panel, every assistant message is the fixed reply. |
| Chat.InterfaceDialogue | src/components/chat/ChatInterface.tsx:32-36 | In the interface panel, every assistant message is the reply chosen from the user message just before it. |
| Terminal.HandleCommand | src/components/terminal/Terminal.tsx:23-30 | Enter on a non-blank input adds three lines after the unchanged old history: the echo of the untrimmed input, the success line and a blank line. It then clears the input. Any other key, or a blank input, changes nothing. |
| Terminal.Edit | src/components/terminal/Terminal.tsx:73 | Typing replaces the input and leaves the history alone. |
| Terminal.EchoIsPrompt | src/components/terminal/Terminal.tsx:58-62 | An echoed command is coloured as a prompt even when it mentions npm, so `$ npm install` is a prompt line. The success line is green, and the blank line is plain. |
| Terminal.InitialShape | src/components/terminal/Terminal.tsx:6-14 | The opening transcript has seven lines. |
| Terminal.ClassifyRule | src/components/terminal/Terminal.tsx:58-62 | For every line: a leading `$` makes it a prompt. Otherwise a leading check mark makes it green. Otherwise it is yellow exactly when "npm" occurs anywhere in it, and plain when it does not. |
| Terminal.InitialClasses | src/components/terminal/Terminal.tsx:6-14 | The opening lines `npm install` and ``  run `npm fund` for details`` are yellow. |
| Terminal.InitialPlainLines | src/components/terminal/Terminal.tsx:6-14 | The other five opening lines are plain, the two blank lines included. |
| Terminal.RunAppendOnly | src/components/terminal/Terminal.tsx:23-30 | Whatever is typed or pressed, the old history stays as a prefix, and everything after it is whole command blocks of non-blank commands. |
| Terminal.TranscriptShape | src/components/terminal/Terminal.tsx:6-30 | The seven opening lines always come first, and the rest of the transcript grows in blocks of three. |
| Integrations.ConnectedOnes | src/components/modals/IntegrationsModal.tsx:58 | The "connected" tab shows only connected records. |
| Integrations.AvailableOnes | src/components/modals/IntegrationsModal.tsx:59 | The "available" tab shows only records that are not connected. |
| Integrations.TabsPartition | src/components/modals/IntegrationsModal.tsx:58-59 | The two tabs are disjoint and together hold every record exactly once. Their header counts add up to the number of records. |
| Integrations.ConnectKind | src/components/modals/IntegrationsModal.tsx:63-72 | Every record of the kind becomes connected, with the form as its config and the sync time. Other records are unchanged. |
| Integrations.SupabaseConnect | src/components/modals/IntegrationsModal.tsx:61-76 | Without a URL and an anon key nothing changes. Otherwise the Supabase records connect, the form is cleared, its dialog closes, and the rest of the dialog is untouched. |
| Integrations.GithubConnect | src/components/modals/IntegrationsModal.tsx:78-93 | Without a token and a repository nothing changes. Otherwise the GitHub records connect, the form resets to an empty token and repository on branch `main`, and its dialog closes. |
| Integrations.ConnectDisabledIffNoEffect | src/components/modals/IntegrationsModal.tsx:185 | Each connect button is disabled exactly when pressing it would change nothing. |
| Integrations.Disconnect | src/components/modals/IntegrationsModal.tsx:95-101 | Records with the id become disconnected, with no config and no sync time. All other records are unchanged. |
| Integrations.DisconnectIdempotent | src/components/modals/IntegrationsModal.tsx:95-101 | Disconnecting twice equals disconnecting once. |
| Integrations.ConnectThenDisconnect | src/components/modals/IntegrationsModal.tsx:61-101 | Connecting pristine records of a kind and then disconnecting them by id restores the list. |
| Integrations.StepGood | src/components/modals/IntegrationsModal.tsx:61-101 | Every event keeps each record consistent and never changes which records exist, or their ids, names, kinds and descriptions. A record is consistent when it is connected exactly when it has a config of its own kind that passed the guard and a sync time. |
| Integrations.InitialGood | src/components/modals/IntegrationsModal.tsx:35-54 | The dialog opens with two consistent, disconnected records: two available and none connected. |
| Integrations.RunGood | src/components/modals/IntegrationsModal.tsx:35-101 | Any sequence of events keeps every record consistent and keeps the same records. |
| Integrations.Reachable | src/components/modals/IntegrationsModal.tsx:35-101 | From the opening dialog, the list is always `supabase-1` then `github-1`. A connected record always holds the credentials its guard required. |
| Text.TrimEmptyIffBlank | src/components/chat/ChatInterface.tsx:20 | A string trims to empty exactly when every character is ECMAScript white space or a line terminator. |
| Text.IncludesIffOccurs | src/components/terminal/Terminal.tsx:61 | The left-to-right `includes` scan succeeds exactly when the pattern occurs at some position. |
| Text.SplitCount | src/components/code/CodeSection.tsx:201 | Splitting at a character gives one more piece than there are occurrences of it. |
| Text.SplitPiecesFree | src/components/code/CodeSection.tsx:201 | No piece of a split contains the separator. |
| Text.JoinSplit | src/components/code/CodeSection.tsx:201 | Joining the pieces of a split with the separator gives back the original text. |

## Left out

- `highlightSyntax` (`src/components/code/CodeSection.tsx:306-320`) is left out. It is a chain of regular-expression rewrites into HTML, and later passes rewrite markup that earlier passes inserted.
- Timers are not modelled. The two-second reply delay becomes the `Reply` completion event. The reply text is fixed when the message is sent, as the source's closure fixes it.
- Clocks are not modelled. Message ids, timestamps and `toLocaleString` sync times are opaque parameters.
- Scrolling, refs, effects, the preview iframe, CSS classes, device-mode sizes and the row indentation are presentation only.
- `Seed.Sample`: every seeded file carries an empty placeholder text instead of the source's file body. The bodies are long sample programs, and nothing modelled depends on their contents. So the gutter count of a seeded file is not its real line count.
- `FileTree.Node`: the source's `FileType` is a record whose `children` and `content` fields are optional. The model uses a File/Folder sum, so a file with children or a folder with text cannot be written down. The seed contains neither. For a File, `findFile`'s `if (file.children)` test is therefore the same as testing for a Folder.
- `EditorTabs.Step`: a click on an id with no tab is a no-op. The source only draws click targets for open, resolving ids.
- `Chat.ReplyVerbCreateIff`: lower-casing is ASCII only. Unicode case mapping, such as for Turkish dotted I or the Kelvin sign, is not modelled.
- `Integrations.Status`: the `error` status exists in the source's type, but no handler sets it. It is modelled as `Failed` and only ever compared against.
- The setup dialogs' cancel and close buttons and the connect buttons of the available tab are modelled as the `CloseSetup` and `OpenSetup` events. Closing the whole dialog (`onClose`, `isOpen`) is not modelled.
- Switching the Code/Preview tab (`src/components/code/CodeSection.tsx:126`, `:136`, `:147`) unmounts the explorer. Every row then comes back with its default expansion from `Explorer.NewRow`. The model keeps no record of a row across that unmount, so it does not model the reset as an event.
- `ChatInterface` is not mounted by the layout shown: `src/components/layout/MainLayout.tsx:11` mounts only `ChatSidebar`. In the source both panels would share one `isGenerating` flag. The model gives each panel its own `Panel`, so it does not describe the two panels running together.
- `src/components/layout/Sidebar.tsx` is a second explorer that the shown layout never mounts, and it is not part of this model. Its rows default to expanded, unlike `CodeSection`'s.
- `SettingsModal.tsx`, `Header.tsx`, `MainLayout.tsx`, `App.tsx`, `WelcomeScreen.tsx` and `ChatMessage.tsx` are view composition only, and are not part of this model.
