# Fence removal and the breadth-first queue walk, in Dafny

This project models two small pieces of the study-sphere backend and proves
properties of them.

- `clean_ai_json` (`main.py`) removes a Markdown code-fence wrapper from a
  language model's reply before the reply goes to the JSON parser. It runs
  three fixed tests in order:
  1. an opening "```json";
  2. an opening "```";
  3. a closing "```".

  Each removal is followed by Python's `str.strip()`.
- The list-backed FIFO `Queue` class and the breadth-first walk of
  `StudySphere.py`. The walk enqueues a root and dequeues nodes one at a
  time. For each dequeued node, every child whose `visited` flag is clear
  gets the flag set and is enqueued.

Modules:

- `Strings` (`strings.dfy`): the parts of Python's `str` that fence removal
  uses.
  - `strip()` with no argument works over the exact set of characters
    `str.isspace()` accepts.
  - Also `startswith` and `endswith`.
  - `Strip` is defined by scanning whitespace from each end.
  - `StripShape` and `StripUnique` characterise `Strip` independently: it
    keeps one contiguous run with only whitespace cut away on either side,
    and that run is the only cut with a trimmed middle.
- `CleanJson` (`clean_json.dfy`): the three tests, each as its own function,
  composed in the source's order. The lemmas cover:
  - round trips for fenced replies;
  - the unchanged-if-unfenced case;
  - the contiguous-run property;
  - what each test keeps when its fence is present;
  - the edge cases: an upper-case tag is kept, a tag beginning with "json"
    is cut after those letters, "```json```" loses both literals, and a
    second closing fence is kept.
- `Queues` (`queue.dfy`): the queue as an immutable value. Each mutating
  Python method returns the new queue together with the method's own result.
  The "Queue is empty" string that `dequeue` and `peek` return on an empty
  queue is the `EmptyMsg` reply. FIFO order is proved over arbitrary
  sequences of `enqueue`/`dequeue` calls.
- `Traversal` (`traversal.dfy`): the walk as a method with loop invariants.
  - Nodes are identified by their position in the graph, not by name; the
    script has two distinct nodes named "C".
  - The `visited` flags are a `seq<bool>`, and child references are
    positions.
  - Termination: the number of unvisited nodes plus the queue length drops by
    exactly one per dequeued node.
  - `RunScript` runs the walk on the script's own four-node graph.

`clean_ai_json` recognises only the exact, lower-case "```json" prefix, with
the tag glued to the backticks.
- A tag that does not begin with the lower-case letters "json" ("```JSON",
  "```python") loses only its three backticks, and the tag stays at the
  front of the text (`CleanJson.UpperCaseTagKept`).
- A tag that does begin with them ("```jsonc", "```json5") loses seven
  characters, so only the rest of the tag stays (`CleanJson.JsonPrefixedTagCut`).
- The opening side can lose both literals: "```json" directly followed by
  "```" (`CleanJson.JsonThenFence`).
- The closing side loses at most one "```" (`CleanJson.DoubleClosingFence`).

## Model

| member | source | states |
|---|---|---|
| Strings.Strip | main.py:43-47 | `str.strip()`: the result has no whitespace at either end and is never longer than the input |
| Strings.StripShape | main.py:43-47 | `strip` keeps one contiguous run of its input, and everything cut on either side of it is whitespace |
| Strings.StripUnique | main.py:43-47 | any cut of a string into whitespace, a trimmed middle and whitespace has that middle as its `strip()`, so `strip` removes all edge whitespace and nothing else |
| CleanJson.DropJsonFence | main.py:42-43 | first test: with "```json" present, the result is trimmed and at least seven characters shorter; any other text is returned unchanged |
| CleanJson.DropOpeningFence | main.py:44-45 | second test: with "```" in front, the result is trimmed and at least three characters shorter; any other text is returned unchanged |
| CleanJson.DropClosingFence | main.py:46-47 | third test: with "```" at the end, the result is trimmed and at least three characters shorter; any other text is returned unchanged |
| CleanJson.DropJsonFenceKeeps | main.py:42-43 | when the text starts with "```json", the first test returns exactly the trimmed middle of what follows those seven characters, whatever whitespace surrounds that middle |
| CleanJson.DropOpeningFenceKeeps | main.py:44-45 | when the text starts with "```", the second test drops exactly those three characters and returns the trimmed middle of the rest |
| CleanJson.DropClosingFenceKeeps | main.py:46-47 | when the text ends with "```", the third test drops exactly those three characters and returns the trimmed middle of what precedes them |
| CleanJson.StripParts | main.py:43-47 | the `strip()` after every removal keeps exactly a trimmed middle placed between two runs of whitespace |
| CleanJson.CleanAiJson | main.py:38-48 | never longer than the reply; a reply with no fence at either end comes back exactly, untrimmed; a reply with a fence at either end comes back with no whitespace at either end |
| CleanJson.CleanIsInfix | main.py:42-48 | the cleaned text is always one contiguous run of the reply, so nothing is invented or reordered |
| CleanJson.NoFenceUnchanged | main.py:42-48 | a reply with no backtick at all is returned exactly as given |
| CleanJson.JsonFenceRoundTrip | main.py:42-47 | "```json" + ws1 + s + ws2 + "```" cleans to exactly `s` for any whitespace `ws1`, `ws2` and any trimmed, backtick-free `s`, and `s` itself cleans to `s` |
| CleanJson.OpeningFenceRoundTrip | main.py:44-47 | "```" + ws1 + s + ws2 + "```" cleans to exactly `s`, unless the body is glued to the backticks and starts with "json" |
| CleanJson.NewlineFenceRoundTrip | main.py:44-47 | "```\n" + s + "\n```" cleans to `s` for every trimmed, backtick-free `s` |
| CleanJson.ClosingFenceLeavesBody | main.py:44-47 | a body, whitespace and a closing fence: the opening test leaves it alone, and the closing test returns exactly the body |
| CleanJson.JsonThenFence | main.py:42-45 | both opening tests can fire: "```json" + "```" + s cleans to s for every trimmed, backtick-free s |
| CleanJson.JsonPrefixedTagCut | main.py:42-47 | a tag that begins with "json" is cut after those letters: "```jsonc\n{}" cleans to "c\n{}" |
| CleanJson.UpperCaseTagKept | main.py:42-45 | the tag is case-sensitive: "```JSON\n{}" cleans to "JSON\n{}", dropping exactly three characters and then trimming |
| CleanJson.ClosingFenceOnly | main.py:46-47 | a trimmed, backtick-free body followed by one closing fence cleans to the body |
| CleanJson.DoubleClosingFence | main.py:46-47 | at most one closing fence is removed: body + "```" + "```" cleans to body + "```" |
| CleanJson.NotIdempotent | main.py:38-48 | cleaning twice differs from cleaning once on body + "```" + "```" |
| CleanJson.SixBackticks | main.py:46-47 | "x``````" cleans to "x```", which cleans to "x" |
| Queues.EmptyQueue | StudySphere.py:4-5 | a new queue is empty and has size 0 |
| Queues.IsEmpty | StudySphere.py:23-27 | `isEmpty()` holds exactly when `size()` is 0, which is exactly when the backing list is empty |
| Queues.Enqueue | StudySphere.py:10-11 | the contents become the old contents plus `x` at the back; the size grows by one; the front stays the same unless the queue was empty |
| Queues.Dequeue | StudySphere.py:13-16 | on an empty queue: the empty message and an unchanged queue; otherwise: the front element, the rest of the list, size one less, and the same element `peek` shows |
| Queues.Peek | StudySphere.py:18-21 | the message exactly when the queue is empty; otherwise the front element |
| Queues.DequeueEnqueue | StudySphere.py:10-16 | on an empty queue, enqueue then dequeue gives back `x`; otherwise the dequeue and the enqueue commute |
| Queues.FifoOrder | StudySphere.py:10-16 | for any sequence of calls, the dequeued elements followed by what is still queued equal the initial contents followed by everything enqueued, so elements leave in arrival order, none lost or repeated |
| Queues.DrainInOrder | StudySphere.py:10-16 | enqueueing `xs` on an empty queue and dequeuing as many times returns `xs` in order and leaves the queue empty |
| Traversal.MarkOne | StudySphere.py:53-54 | setting a clear flag lowers the number of unvisited nodes by exactly one |
| Traversal.ReachesStep | StudySphere.py:52-55 | a child of the root, or of a node reachable from it, is reachable from the root |
| Traversal.NeverAChild | StudySphere.py:45-56 | a node that is no node's child is never reachable, which is why the root `a` is never marked |
| Traversal.VisitChild | StudySphere.py:53-55 | one child: if its flag was clear, the flag is set and the child goes to the back of the queue; otherwise nothing changes; afterwards it is marked and unvisited plus queue length is unchanged |
| Traversal.VisitChildren | StudySphere.py:52-55 | after the inner loop every child of the dequeued node is marked, no flag is cleared, and the nodes appended to the queue are exactly the newly marked ones, in marking order |
| Traversal.Traverse | StudySphere.py:45-56 | the loop ends with an empty queue; the root is dequeued first; a node's flag is set exactly when it is reachable from the root by at least one link, exactly when it was dequeued after the root, and each is dequeued once |
| Traversal.ScriptGraph | StudySphere.py:38-43 | the script's four nodes, with every child reference inside the graph |
| Traversal.ScriptReachability | StudySphere.py:38-43 | in the script's graph, `b`, `c` and `d` are reachable from `a`, and `a` is not |
| Traversal.ScriptNames | StudySphere.py:49-51 | any dequeue list with `a` first and then `b`, `c`, `d` once each prints "A", then "B" and "C" twice in some order |
| Traversal.RunScript | StudySphere.py:38-56 | the script's run: flags end as `[false, true, true, true]`; four "Dequeued:" names, "A" first, then one "B" and two "C"; and the final queue print is empty |

## Left out

- The FastAPI endpoints, `.env` discovery and `API_KEY` checks in `main.py`. They are framework wiring and environment I/O.
- The prompt text, the HTTP call to the model and `json.loads`. They are static text, network I/O and a foreign parser.
- The command-line `__main__` block.
- `AudioTranslation.py` and `gunicorn_config.py`. They are audio-library calls, filesystem effects and deployment constants.
- Every `print` call. The printed values are returned instead: `RunScript` returns the dequeued names and the names left in the final queue. The print of the queue's front just after the root is enqueued (`StudySphere.py:48`) is not modelled.
- Queues.Dequeue: the empty-queue result is a distinct `EmptyMsg` value. In Python, an element equal to the string "Queue is empty" could not be told apart from it. The walk only dequeues from a non-empty queue, so it never meets the message.
- Queues.GetQueue and Queues.Size are plain accessors. Their meaning is stated through the contracts of `IsEmpty`, `Enqueue`, `Dequeue` and `Peek`. Python's `getQueue()` hands out the live backing list, through which a caller could change the queue. The model returns a value instead. The script only reads that list, at `StudySphere.py:48` and `StudySphere.py:56`.
- Node objects are positions in a `seq<Node>`, and child references are positions. The `visited` attributes are one `seq<bool>`, all false at the start of `Traverse`. The `not child.visited == True` test is the same as `not child.visited` because the flag only ever holds a boolean.
- Traversal.Traverse: states which nodes are dequeued and that each is dequeued once, but not the exact breadth-first order in which they come.
- Traversal.RunScript: states the multiset of dequeued names and that "A" comes first. It does not state that "B" comes second. That follows from the exact order, which `Traverse` does not state.
