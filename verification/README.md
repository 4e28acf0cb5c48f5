# Scotland Yard game logic in Dafny

This project models the rules engine of a Python 2 Scotland Yard clone. Mr X
(agent 0) moves around an undirected transport map. The cops (agents 1..n)
try to land on his node. Each move costs a ticket: TAXI, BUS, UNDERGROUND, or
the BLACK ticket that works on every edge. BLACK is the only ticket type meant
for a FERRY edge, but the code does not reject a FERRY entry in a ticket book,
and such an entry pays for a ferry edge like any ticket named after its edge.
Mr X's node is revealed only after certain move numbers.

The model covers:

- reading the layout file into edges and stations;
- the legal-move rules and how performing a move updates an agent;
- the game state: successor generation, end-of-game detection and the evidence
  the cops see;
- the exact forward inference the "smart" cop runs over Mr X's position;
- the parsing and start-position parts of the settings module.

Modules, in dependency order:

| module | file | models |
|---|---|---|
| `Wrappers` | `wrappers.dfy` | `Result`/`Option`. An error is one of the Python exception kinds, plus `Diverges` for a retry loop that never ends |
| `Text` | `text.dfy` | `str.strip`, `str.split`, `str.upper`, `int()` on strings, and writing integers back |
| `Counters` | `counters.dfy` | `util.Counter` |
| `Layouts` | `layouts.dfy` | `layout.py` |
| `Rules` | `rules.dfy` | `rules.py` |
| `Agents` | `agents.dfy` | `AgentState`, `Agent`, `MrX`, `Cop` |
| `Game` | `game.dfy` | `GameStateData` and `GameState` |
| `Settings` | `settings.dfy` | `settings.py` parsing, legal positions, start positions |
| `Inference` | `inference.dfy` | `inference.py` |
| `SmartCops` | `smartcops.dfy` | the inference step of `SmartKeyboardCop.getAction` |

Modelling conventions:

- **Objects are values.** Mutating methods become functions that return the new value.
- **Exceptions are `Err` results.** Each carries its Python exception kind.
- **The settings singleton is replaced by arguments.** Values it would supply become parameters: the maximum number of moves, the not-hidden move numbers, the layout, and the configured strings.
- **Randomness is a free choice.** A random draw becomes a nondeterministic choice (`:|`) among the values the Python code could pick.
- **Floats are exact reals.**
- **A `Counter` is an association list with distinct keys.** The list order stands for the dictionary's iteration order.

## Model

| member | source | states |
|---|---|---|
| Counters.Get | src/util.py:23-28 | Reading a key returns its stored value, or 0 for a missing key. A missing key is inserted with 0. No other key and not the total changes |
| Counters.Set | src/inference.py:39 | After `c[k] = v`, key k reads v and every other key reads as before. The keys gain k. The total changes by v minus the old value |
| Counters.Add | src/inference.py:91 | `c[k] += v` raises key k by v, leaves every other key alone, and raises the total by v |
| Counters.ArgMax | src/util.py:30-40 | None exactly for an empty counter. Otherwise a non-empty list holding exactly the keys whose value is the maximum, and no stored value exceeds theirs |
| Counters.Normalize | src/util.py:48-56 | A zero total leaves the counter unchanged. Otherwise keys and order are kept, each value is divided by the total, and the new total is 1 |
| Counters.NonNegativeTotal | src/util.py:42-46 | Without negative values, every value lies between 0 and the total |
| Counters.PositiveKey | src/util.py:42-46 | A positive total has a key with a positive value |
| Layouts.TypeFromName | src/layout.py:17-21 | Recognises exactly the four edge-type spellings |
| Layouts.TypeNameToken | src/layout.py:12-21 | Each type name, upper-cased, reads back as its own type |
| Layouts.ProcessLine | src/layout.py:81-109 | A line without `;` is a ValueError. An accepted edge has distinct endpoints in increasing order, neither endpoint on its path, and is new |
| Layouts.MakeEdge | src/layout.py:99-109 | Accepted exactly when both endpoints are off the path, the endpoints differ, and the ordered edge is new; otherwise an AssertionError. The result has its endpoints swapped into order |
| Layouts.ProcessFormattedLine | src/layout.py:81-109 | On any record written without blanks: an unknown type name is a ValueError; otherwise the verdict is that of the endpoint and duplicate checks |
| Layouts.ProcessPaddedLine | src/layout.py:81-109 | On any record in the documented `<type>; <start> : <path> : <end>` shape, with any blanks around the line, after `;` and on either side of each `:`: an unknown type name is a ValueError; otherwise the verdict is that of the endpoint and duplicate checks on the numbers written |
| Layouts.FormattedDescription | src/layout.py:91-97 | A written `start : path : end` description reads back to its start, path and end |
| Layouts.ParseFormattedPath | src/layout.py:93-97 | A blank-separated waypoint list reads back unchanged; an empty one reads as the empty path |
| Layouts.AddStation | src/layout.py:70-75 | Adding a station type creates the node entry when missing, adds the type, and leaves other nodes alone |
| Layouts.EmptyLayout | src/layout.py:59-62 | The layout before any edge is read satisfies the layout invariant |
| Layouts.AddEdgeConsistent | src/layout.py:65-75 | Recording a new well-formed edge keeps the invariant: the types are those of the edges and the stations are the endpoints with their incident types |
| Layouts.ReadEdges | src/layout.py:65-75 | Success appends one edge per line in order, each the reader's verdict on its line given the edges before it |
| Layouts.ReadEdgesConsistent | src/layout.py:65-75 | Reading edges into a consistent layout gives a consistent layout |
| Layouts.RecordedAccepted | src/layout.py:65-67 | Lines each accepted in turn are all read, and exactly those edges are appended |
| Layouts.ReadEdgesRejects | src/layout.py:65-67 | One line rejected whatever came before makes the whole read fail |
| Layouts.ParseLayout | src/layout.py:56-75 | An empty file is an IndexError. A parsed layout is consistent, and its node count is the first line read with `int()` |
| Layouts.ParseLayoutRecords | src/layout.py:65-75 | Each edge of a parsed layout is the reader's verdict on its line |
| Layouts.ParseLayoutRejects | src/layout.py:82-83 | Any record line that `_processLine` rejects whatever edges precede it makes loading fail |
| Layouts.MissingSemicolonRejected | src/layout.py:82-83 | In particular a record line without `;` makes loading fail |
| Layouts.ParseLayoutReads | src/layout.py:59-75 | Loading is the node-count header followed by reading the records into an empty layout |
| Layouts.EdgeRecordRead | src/layout.py:81-109 | A well-formed new edge written as a record reads back as itself |
| Layouts.LayoutRoundTrip | src/layout.py:59-109 | Writing well-formed distinct edges and a node count as a file and loading it gives back the same node count and the same edges |
| Layouts.EdgesFrom | src/layout.py:138-146 | Exactly the edges touching the node, each turned to start at it; never more than the stored edges |
| Layouts.EdgesFromAppend | src/layout.py:142-146 | The comprehension keeps the stored order: the result over two runs of edges is the two results one after the other |
| Layouts.EdgesFromOne | src/layout.py:142-146 | A single edge gives itself, oriented from the node, exactly when it touches the node, and nothing otherwise; with the previous row this fixes the result's order and repetitions |
| Layouts.Undirected | src/layout.py:138-146 | An edge seen leaving n towards m is also seen leaving m towards n |
| Layouts.SameLayoutIsEquality | src/layout.py:148-149 | On consistent layouts, comparing node count and edges is the same as full equality |
| Rules.TicketTypes | src/rules.py:90-95 | Four tickets: the three typed ones and BLACK, with no FERRY ticket |
| Rules.NewAction | src/rules.py:103-107 | An action is built exactly when it leaves its start node; otherwise an AssertionError |
| Rules.EdgeCandidates | src/rules.py:24-37 | An oriented edge offers the BLACK move when a BLACK ticket is held, and the move with the edge's own ticket when that is held |
| Rules.Candidates | src/rules.py:22-37 | The candidate moves are exactly those some incident edge offers; at most two per edge |
| Rules.WithoutCops | src/rules.py:39-42 | The filter keeps exactly the moves that do not end on a cop |
| Rules.LegalActionsExact | src/rules.py:14-42 | A move is listed exactly when it satisfies the direct rule. The rule: it follows an incident edge away from the node; it is paid with BLACK or the edge's type; the ticket is held; no cop is at the destination |
| Rules.LegalActionsSound | src/rules.py:14-42 | Every listed move satisfies the direct rule |
| Rules.LegalActionsComplete | src/rules.py:14-42 | Every move satisfying the direct rule is listed |
| Rules.LegalActionsMove | src/rules.py:24-37 | On well-formed edges, a listed move starts at the agent's node and moves, so building it as an `Action` succeeds |
| Rules.NoFerryWithoutBlack | src/rules.py:27-37 | Without a usable BLACK ticket and with no FERRY entry in the ticket book, every legal move follows a non-ferry edge paid with that edge's ticket |
| Rules.IsLegalAction | src/rules.py:46-50 | True exactly for the moves the direct rule allows |
| Rules.RandomNode | src/rules.py:54-72 | No nodes is an IndexError. A node is returned exactly when some node in 1..numNodes is free of cops; it is in range and free. Otherwise the retry loop never ends |
| Agents.NewAgentState | src/agents.py:26-32 | A new state stands at the given node with the given tickets and an empty history |
| Agents.AddMoveToHistory | src/agents.py:37-40 | Accepted exactly when the move starts at the current node (else an AssertionError). The move is appended, the agent stands at its end, and the tickets are untouched |
| Agents.AddMoveKeepsWalk | src/agents.py:37-40 | The history stays a connected walk from the start node to the current node |
| Agents.NewAgent | src/agents.py:69-75 | Built exactly when Mr X is at index 0 and cops at positive indices; otherwise an AssertionError |
| Agents.Reveals | src/agents.py:131-135 | Move k is revealed exactly when it was made and k is a not-hidden number; it maps to the end of the k-th action |
| Agents.NewMrX | src/agents.py:121-137 | Mr X is agent 0, and his reveal map is rebuilt from the history |
| Agents.NewCop | src/agents.py:169-179 | A cop is built exactly for a positive index; otherwise the base constructor's AssertionError |
| Agents.PerformAction | src/agents.py:106-111 | Accepted exactly when the ticket is held and the move starts at the agent's node. One ticket of that type is spent and all others are kept; the move is recorded. For Mr X a not-hidden move number adds his new node to the reveal map |
| Agents.PerformConserves | src/agents.py:106-111 | For every ticket, the count held plus the count used is unchanged by a move |
| Agents.PerformKeepsTicketsNonNegative | src/agents.py:109-110 | Ticket counts never become negative |
| Agents.PerformKeepsValid | src/agents.py:158-162 | The reveal map Mr X updates move by move equals the one his constructor rebuilds from the history |
| Agents.DeepCopyEqual | src/agents.py:51-52 | Copying a valid agent yields an equal agent |
| Game.NewGameState | src/game.py:19-26 | A state is built exactly when there are at least two agents; otherwise an AssertionError |
| Game.NumberOfCops | src/game.py:49-53 | All agents but Mr X are cops, and there is at least one |
| Game.GetAgent | src/game.py:34-40 | An index inside the agent list returns that agent; otherwise an AssertionError |
| Game.CopPositions | src/game.py:97-105 | The nodes of cops 1..n, in order |
| Game.LegalCopActions | src/game.py:120-125 | A cop's listed moves are exactly the moves the direct rule allows from its node with its tickets |
| Game.IsEndState | src/game.py:157-189 | The four outcomes are given in order of precedence: (1) the cops win by capture exactly when Mr X shares a cop's node, naming the first such cop; (2) on Mr X's turn Mr X wins at exactly the move limit; (3) otherwise on his turn the cops win when he has no legal move; (4) on a cop turn Mr X wins when no cop can move; in every other case the game goes on |
| Game.CaptureIgnoresTurn | src/game.py:165-170 | A capture ends the game whoever's turn it is |
| Game.FirstCaptorUnique | src/game.py:168-170 | The reported captor is determined: it is the first cop on Mr X's node |
| Game.Winners | src/game.py:157-189 | The cops win exactly on a capture or a stuck Mr X before the limit; Mr X wins exactly at the limit on his turn or when no cop can move |
| Game.GenerateSuccessor | src/game.py:140-155 | Refused with an AssertionError on a finished game or a bad index. An illegal move is refused as illegal. Otherwise only the mover changes, and exactly as performing the move changes it |
| Game.SuccessorCountsMrXMoves | src/game.py:28-32 | The move count grows by one exactly when Mr X moves |
| Game.MrXMoveNotCaught | src/rules.py:39-42 | Mr X never moves onto a cop |
| Game.SuccessorKeepsCopsApart | src/rules.py:39-42 | Cops that start on different nodes stay on different nodes |
| Game.SuccessorWellFormed | src/game.py:140-155 | Successors keep a consistent layout (as loading builds it) and every agent at its index with the right role, a consistent reveal map and non-negative tickets |
| Game.DeepCopyStateEqual | src/game.py:55-60 | Copying a well-formed state yields an equal state |
| Game.SuccessorOfCopy | src/game.py:149-155 | On a well-formed state, moving the deep copy gives the same successor as moving the state itself |
| Game.MrXEvidences | src/game.py:127-137 | The evidence is Mr X's tickets in the order used, one per move, together with his reveal map |
| Game.EvidenceGrows | src/game.py:127-137 | A Mr X move appends exactly its ticket to the evidence |
| Settings.LastWins | src/settings.py:77-79 | Storing pairs one by one: the keys are those of the pairs, and each maps to the value of its last pair |
| Settings.SplitSettingLine | src/settings.py:78-79 | A line is accepted exactly when it splits on `->` into two pieces; otherwise a ValueError. Key and value come out stripped |
| Settings.SettingLineRoundTrip | src/settings.py:77-79 | `key -> value` with any blanks around the separator and at the end reads back as the pair |
| Settings.LoadSettings | src/settings.py:77-79 | Loading succeeds exactly when every line splits. The result is the last-wins dictionary of the split lines |
| Settings.ParsePair | src/settings.py:254-255 | A segment is accepted exactly when it has one `=` and an integer after it. The key is stripped and holds no `=` |
| Settings.ParseTicketDict | src/settings.py:251-256 | Accepted exactly when every `;` segment of the stripped text is a pair; otherwise a ValueError. The result maps each stripped key to `int()` of its value, the last of a repeated key winning; the keys hold no separator |
| Settings.TicketTextRoundTrip | src/settings.py:251-256 | Written `k=v;...` text parses back to the last-wins dictionary of the pairs |
| Settings.NotHiddenMoves | src/settings.py:198-202 | Accepted exactly when every comma piece is an integer; otherwise a ValueError. The result holds `int()` of each piece, in order |
| Settings.NotHiddenMovesRoundTrip | src/settings.py:198-202 | A comma-joined list of numbers reads back unchanged |
| Settings.StationNodes | src/settings.py:193 | The station nodes, each once: exactly the endpoints of the edges |
| Settings.LegalPositions | src/settings.py:189-195 | Exactly the nodes not held by a cop, without repeats when the nodes have none |
| Settings.LegalPositionsOfLayout | src/settings.py:189-195 | On a loaded layout, the legal positions are exactly the stations without a cop, each once |
| Settings.ParseSlot | src/settings.py:218-224 | A slot reading "random" after stripping is left open. Otherwise a non-integer is a ValueError, a non-station an AssertionError, and a station is kept |
| Settings.ParseSlots | src/settings.py:218-224 | Every slot is read in order. The first failing slot decides the error |
| Settings.FixedSet | src/settings.py:227-229 | The occupied nodes are exactly the fixed slots; with no duplicates they number the fixed slots |
| Settings.FillPositions | src/settings.py:231-248 | Every slot is filled exactly when there are no more slots than stations. Otherwise: no stations is an IndexError, else the draw never ends. Fixed slots are kept, and all positions are distinct stations |
| Settings.AssignPositions | src/settings.py:211-236 | A slot error is passed on, and a repeated fixed node is an AssertionError. Otherwise the fill verdict holds, and the number of cops is the number of comma pieces in the cop setting |
| Inference.Destinations | src/inference.py:35-39 | Followable edges with their destinations stored; a cop's node weighs 0, any other 1 |
| Inference.DistributionFrom | src/inference.py:10-42 | The keys are exactly the nodes reachable by one edge the ticket allows. Cop nodes weigh 0 and all other keys weigh the same. If a non-cop key exists the total is 1; otherwise every weight is 0 |
| Inference.ForwardAvoidsCops | src/inference.py:15-20 | The one-step distribution never puts weight on a cop's node |
| Inference.Accumulate | src/inference.py:90-91 | Adding one weighted distribution adds pointwise and adds the totals |
| Inference.Propagate | src/inference.py:84-92 | Each node gets the sum, over the old beliefs, of the belief times the chance of stepping there. The total is the sum of beliefs times their outgoing mass |
| Inference.BeliefsAfterStep | src/inference.py:84-94 | After propagating and normalising, cop nodes weigh 0. When weight moved at all, the result is the inflow scaled to total 1; when none moved, it is the inflow itself |
| Inference.NewInference | src/inference.py:52-64 | The cursor starts at 0 and the keys are the legal positions, all with equal weight. With any position the total is 1, and with distinct positions each weighs one over their number |
| Inference.InitialBelief | src/inference.py:56-62 | In a game, the initial belief covers exactly the stations no cop starts on, each with weight one over their number |
| Inference.UpdateBeliefs | src/inference.py:71-96 | Accepted exactly when the ticket list has one entry past the cursor; otherwise an AssertionError. The cursor advances by one. A revealed move gives a point mass of 1 on the seen node. A hidden move gives the propagated belief: zero on cops, the normalised inflow when any weight moved, and the unscaled inflow when none did |
| SmartCops.Guess | src/agents.py:283-291 | The update succeeds exactly when the cursor is one behind Mr X's move count, and the cursor then advances. After a revealed move the guess is exactly the seen node |
| SmartCops.RevealedArgMax | src/inference.py:80-83 | A point mass has its own node as its only most likely node |
| SmartCops.GuessAvoidsCops | src/agents.py:287-291 | After a hidden move, a normalised belief never guesses a node a cop stands on |
| Text.Split | src/layout.py:84 | The pieces joined with the separator give back the text, and there is at least one piece. A one-character separator appears in no piece |
| Text.SplitJoin | src/settings.py:202 | Splitting text joined with a separator that no piece holds gives the pieces back |
| Text.StripPadding | src/settings.py:79 | Stripping removes exactly the surrounding blanks of a trimmed core |
| Text.ParseIntPadded | src/layout.py:92 | `int()` reads a written integer back, even with blanks around it |
| Text.ParseJoinedInts | src/settings.py:202 | A separated list of written integers reads back unchanged |

## Left out

- The console and GUI displays, keyboard input, the `print` statements, the game driver and its turn rotation: these are user interface and control flow outside the rules.
- File I/O: the layout and settings readers take the file's lines, or the configured strings, as arguments. Default file names, the `.txt` suffix and the existence check are not modelled.
- The lazily built `Settings` singleton: the layout, the maximum number of moves, the not-hidden move numbers and the configured position strings are passed explicitly. `getMaxNumMoves` is just `int()` of its setting, which `Text.ParseInt` covers.
- `distributionFrom` reads the layout from the settings, not from the game state. `SmartCops.Guess` passes the game's own layout, which is the same object in every game the program builds.
- Randomness: `random.choice` is a free choice among the values it could return; no distribution is modelled.
- Floating point: beliefs are exact reals, so rounding in `normalize` is not modelled.
- Text.ParseInt: Python 2's `int()` on a byte string also accepts blanks between the sign and the digits (`int("- 5") == -5`). The model rejects that form; it accepts only an optional sign directly followed by decimal digits, with blanks around the whole.
- Dictionary iteration order: a `Counter` is an ordered association list, and station nodes are listed in the order their edges first mention them. No stated property depends on either order.
- Error messages: only the exception kind is kept.
- State changed before an exception is raised (for example the ticket already spent when `addMoveToHistory` then fails) is not modelled, because every error result discards the state.
- The shared default `movesHistory=[]` list of `AgentState`: with value semantics every new state has its own empty history. The program deep-copies before every move, so the sharing never shows through `generateSuccessor`.
- `Counter.copy`, `deepCopy` of inference objects and `getBeliefsDistribution` are plain value copies or accessors: copying a value is the identity here. `deepCopy` of agents and states is not a plain copy, because Mr X's copy rebuilds his reveal map from his history (`Agents.DeepCopy`, `Game.DeepCopyState`).
- Game.GenerateSuccessor: moves the given state instead of its deep copy. On a state whose Mr X reveal map disagrees with his history the two differ, because the copy rebuilds the map. No state the program builds is like that: on well-formed states the copy is the state itself (`Game.DeepCopyStateEqual`), the successor is the same (`Game.SuccessorOfCopy`), and well-formedness is kept (`Game.SuccessorWellFormed`).
- `ExactInference(beliefs)` with given beliefs only stores them.
- The `assert start == old_pos and end != start` in `distributionFrom` always holds for the oriented edges of a loaded layout (`Rules.LegalActionsMove` shows the same facts). It is not checked again.
- `SmartKeyboardCop` keeps one inference object shared by its copies, then asks the keyboard for the action. Only the inference step is modelled.
- `Agent.__repr__`, `__str__` and the `__eq__` methods other than the layout comparison are not modelled.
- Settings.SettingLineRoundTrip: only for keys and values without `-`, because a `-` could start another `->` separator.
- Settings.TicketTextRoundTrip: only for trimmed keys without `;` or `=`, the characters the format reserves.
