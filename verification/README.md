# Conversation memory of a dialogue agent, in Dafny

This project models the short-term conversational state of a command-line chat bot
(`chat_memory.py`) and the post-processing of a generated reply (`model_loader.py`).
It proves properties of the model.

- **ChatMemory** (`chat_memory.dfy`) is the bounded conversation buffer. It behaves like a
  Python `deque(maxlen=window_size)` of turn records plus a `total_turns` counter. Each
  operation is a pure function from the old `Memory` value to the new one:
  - `AddTurn`: truncates both texts by words, numbers the turn from the counter, and
    evicts the oldest turn when the buffer is full.
  - `ContextPrompt`: renders the `Human:`/`Assistant:` prompt.
  - `RecentContext`: Python-slices out recent turns.
  - `ClearMemory`, `MemoryStats`, `ExportConversation`, `ImportConversation`.
- **ContextManager** (`context_manager.dfy`) is the topic tracker. It extracts up to five
  keywords per exchange and merges them into a keyword set. When the set grows past
  twenty, it is cut to fifteen. It also renders a one-line topic summary.
- **ModelLoader** (`model_loader.dfy`) holds only `_clean_response`. This function cuts a
  reply at the first of four end markers and strips it. If nothing is left, it falls back
  to a fixed sentence.
- `text.dfy` models the Python string operations these rely on:
  - `str.split()` on whitespace and `' '.join`;
  - `str.strip()` with and without a character set;
  - ASCII `str.lower()`;
  - substring `in`, and `split(sep)[0]`.
- `sequences.dfy` models list slicing `[-n:]` and `[:n]`, and listings of sets.
  `wrappers.dfy` holds `Option`.

Behaviour of the code that a reader may not expect:

- `import_conversation` stores the given records as they are. It does not renumber them
  `1..k`. Right after an import, the counter equals the number of records kept. So a turn
  added next can repeat a restored turn's id (`ChatMemory.ImportThenAddRepeatsId`).
- The keyword filter tests the length and the stop list on the token *before*
  punctuation is stripped. So `"The,"` yields the stop word `"the"`, and `"...."` yields
  the empty keyword.
- The trim keeps `list(set)[-15:]`, and the summary shows `list(set)[-5:]`. Both follow
  Python's hash-based set iteration order, not insertion order. The model passes that
  order as a parameter `order`, which must list the set without repetition. The proofs
  state only which keywords can survive and how many do.
- `get_recent_context(0)` returns the whole buffer, because `[-0:]` is `[0:]`. A negative
  argument is modelled with Python's slice semantics too.

## Model

| member | source | states |
|---|---|---|
| `ChatMemory.Init` | chat_memory.py:9-13 | A new memory is empty, has counter 0, keeps the configured window and word limit (5 and 100 when not given), and satisfies the state invariant |
| `ChatMemory.TruncateMessage` | chat_memory.py:58-62 | A message of at most `max_tokens_per_turn` words is stored unchanged, whitespace included |
| `ChatMemory.TruncateKeepsFirstWords` | chat_memory.py:58-62 | A longer message becomes its first `max_tokens_per_turn` words, followed by `"..."`; the part before the ellipsis splits back into exactly those words and is single-spaced: every whitespace character in it is one `' '` between two non-whitespace characters |
| `Text.SingleSpacedJoinSplit` | chat_memory.py:61-61 | A single-spaced text is exactly its words joined by single spaces, so the words and the single spacing together determine the truncated text |
| `ChatMemory.TruncateWords` | chat_memory.py:58-62 | For a limit of at least 1, a truncated message has exactly `max_tokens_per_turn` words: the original's first ones, the last with the ellipsis attached. At limit 0 the result is `"..."`, one word, as `ChatMemory.TruncateBound` covers |
| `ChatMemory.TruncateBound` | chat_memory.py:58-62 | A stored text never has more than `max(max_tokens_per_turn, 1)` words |
| `ChatMemory.TruncateIdempotent` | chat_memory.py:58-62 | Truncating an already truncated message changes nothing |
| `ChatMemory.StepIsAddTurn` | chat_memory.py:16-27 | A step of a run of additions is exactly one `add_turn` call on that exchange's texts and timestamp |
| `ChatMemory.AddTurn` | chat_memory.py:16-27 | The buffer stays within the window; the counter rises by exactly 1, eviction included; the new turn is last, carries id old counter + 1, the truncated texts and the timestamp; the turns before it are the old buffer minus at most its oldest turn |
| `ChatMemory.AppendAllLast` | chat_memory.py:12-25 | A `deque(maxlen=n)` that starts within its bound holds the last `n` of everything appended to it |
| `ChatMemory.AddTurnsCounts` | chat_memory.py:16-27 | Any run of `k` additions raises the counter by exactly `k` and keeps the configuration |
| `ChatMemory.AddTurnsKeepsWindow` | chat_memory.py:12-27 | After any run of additions, the buffer is the last `window_size` of the old turns followed by the new ones |
| `ChatMemory.AddTurnsLength` | chat_memory.py:12-27 | Each addition grows the buffer by one until the window is full |
| `ChatMemory.AddTurnsAfterClear` | chat_memory.py:12-27 | After a clear and `k` additions, the buffer holds the last `min(k, window_size)` turns added, oldest first, and the counter is `k` |
| `ChatMemory.AddTurnKeepsNumbering` | chat_memory.py:20-26 | If the buffer holds the turns numbered consecutively up to the counter, it still does after one addition |
| `ChatMemory.AddTurnsKeepsNumbering` | chat_memory.py:20-26 | The consecutive numbering up to the counter survives any run of additions |
| `ChatMemory.NumberedAfterClear` | chat_memory.py:20-26 | After a clear and `k` additions, the stored ids are consecutive and end at `k` |
| `ChatMemory.JoinTurnLines` | chat_memory.py:32-38 | Joining the two lines of every turn with newlines gives each turn's `Human:` and `Assistant:` line, each newline-terminated |
| `ChatMemory.ContextPrompt` | chat_memory.py:29-38 | The prompt is every retained turn as a `Human: ` line and an `Assistant: ` line, oldest first, then `Human: <input>` and the cue `Assistant:`. With an empty buffer it is exactly `Human: <input>\nAssistant:`, and it never ends in a newline |
| `ChatMemory.RecentContext` | chat_memory.py:40-43 | For `n >= 1`, the result is the last `min(n, len)` turns in storage order. For `None` or `0`, it is the whole buffer. A negative `n` drops the first `-n` turns |
| `ChatMemory.ClearMemory` | chat_memory.py:45-48 | Afterwards the buffer is empty and the counter is 0; the window and word limit are unchanged |
| `ChatMemory.MemoryStats` | chat_memory.py:50-56 | `buffer_full` holds exactly when the buffer length equals the window size; `max_buffer_size` is the window size; the other two fields are the counter and the length |
| `ChatMemory.StatsAfterClear` | chat_memory.py:45-56 | After a clear, the statistics are 0 turns, length 0, not full |
| `ChatMemory.BufferFullAfterWindow` | chat_memory.py:50-56 | Counting from a clear, the buffer reports full exactly once `window_size` turns have been added |
| `ChatMemory.ExportConversation` | chat_memory.py:67-68 | The export has one record per stored turn, in order, and each record has both texts and converts back to that turn |
| `ChatMemory.AppendRecordsWithinWindow` | chat_memory.py:72-75 | While the window has room, the import loop appends every record that has both texts, unchanged, and counts each one |
| `ChatMemory.ImportConversation` | chat_memory.py:70-76 | The import clears first. Of the last `window_size` records, it keeps those with both texts, unchanged and in order. The counter ends at the number kept |
| `ChatMemory.ImportExportRoundTrip` | chat_memory.py:67-76 | Importing an export leaves the buffer contents unchanged and sets the counter to the buffer length |
| `ChatMemory.ImportKeepsLastWindow` | chat_memory.py:70-76 | When every record is well formed, the import keeps exactly the last `min(len, window_size)` records, and the counter is that number |
| `ChatMemory.ImportSlicesBeforeFiltering` | chat_memory.py:72-73 | The window is cut before malformed records are dropped: `window_size` malformed records at the end leave the buffer empty, whatever comes before them |
| `ChatMemory.ImportThenAddRepeatsId` | chat_memory.py:20-75 | Because the import does not renumber, with a window of at least 2, restoring one record numbered 2 and then adding a turn leaves two turns that are both numbered 2. With a window of 1 the addition evicts the restored turn |
| `ContextManager.Init` | chat_memory.py:79-82 | A new tracker has no keywords |
| `ContextManager.QualifyingTokensAppend` | chat_memory.py:95-96 | The token filter works token by token and keeps the left-to-right order |
| `ContextManager.QualifyingTokensOfToken` | chat_memory.py:95-96 | A single token survives exactly when it is longer than 3 characters and not a stop word |
| `ContextManager.ExtractKeywords` | chat_memory.py:90-97 | There are at most 5 keywords, exactly `min(5, number of qualifying tokens)`. The `i`-th keyword is the `i`-th qualifying lower-cased token, stripped of `.,!?;:"()[]` |
| `ContextManager.KeywordsFromTokens` | chat_memory.py:94-96 | Every keyword has no upper-case ASCII letter and no stripped punctuation at either end. It is made of characters of one qualifying token |
| `ContextManager.StopWordWithComma` | chat_memory.py:95-96 | The filter runs before stripping: `"The,"` yields `["the"]` |
| `ContextManager.PunctuationOnlyToken` | chat_memory.py:95-96 | `"...."` passes the filter and yields the empty keyword |
| `ContextManager.ExtractFromJoinedText` | chat_memory.py:85-85 | Joining the user text and the reply with a space gives the tokens of the user text followed by those of the reply |
| `ContextManager.Merge` | chat_memory.py:86-88 | The new set has at most 20 keywords. A union of at most 20 is kept whole; a larger union is cut to a 15-element subset of itself |
| `ContextManager.UpdateTopicContext` | chat_memory.py:84-88 | After every update, the set has at most 20 keywords, all from the old set or from this exchange |
| `ContextManager.SmallSetNotTrimmed` | chat_memory.py:85-88 | A set of at most 15 keywords is never cut: it keeps all its keywords and gains every new one |
| `ContextManager.ShownKeywords` | chat_memory.py:101-101 | The summary lists `min(5, size)` distinct keywords of the set |
| `ContextManager.GetTopicContext` | chat_memory.py:99-102 | The fixed no-topic message is returned exactly when the set is empty. Otherwise the result is the fixed label followed by the shown keywords, separated by `, ` |
| `ModelLoader.CutAtFacts` | model_loader.py:62-64 | One cut removes every occurrence of its marker. It keeps the text stripped and a prefix of what it was, and it creates no new substring. When the marker occurs, the result is the stripped text before its first occurrence |
| `ModelLoader.CutAllFacts` | model_loader.py:62-64 | After all cuts, the text contains none of the markers and is a stripped prefix of the input. An input with no marker is unchanged |
| `ModelLoader.DefaultReplyClean` | model_loader.py:65-66 | The fallback sentence is non-empty, stripped, and contains no marker |
| `ModelLoader.CleanResponse` | model_loader.py:60-67 | The cleaned reply is never empty, has no leading or trailing whitespace, and contains none of the four end markers (a line break, the end-of-text, `</s>` and im-end tokens). It is the fallback or a prefix of the stripped input. It equals the stripped input exactly when that input is non-empty and has no marker |
| `ModelLoader.CleanCutsAtMarker` | model_loader.py:60-67 | For a reply `a + m + b` where `m` is a marker and `a` holds no marker, the result is `a` stripped, or the fallback when `a` is blank. A blank `a` before a line break is stripped away with the leading whitespace, and the result is that of cleaning `b` |
| `ModelLoader.CleanIdempotent` | model_loader.py:60-67 | Cleaning an already cleaned reply returns it unchanged |
| `Text.Split` | chat_memory.py:59-59 | `str.split()`: every piece is a non-empty run of non-whitespace. Together with `Text.SplitWord` and `Text.SplitAroundWhitespace`, this fixes the result on every string |
| `Text.SplitWord` | chat_memory.py:59-59 | A single run of non-whitespace splits into itself |
| `Text.SplitAroundWhitespace` | chat_memory.py:59-59 | The words of `a`, then any one whitespace character (a space, a tab, a line break and so on), then `b`, are the words of `a` followed by those of `b` |
| `Text.SplitJoin` | chat_memory.py:59-61 | Joining words with single spaces and splitting again gives the words back |
| `Text.SplitAroundSpace` | chat_memory.py:85-85 | The words of `a + " " + b` are the words of `a` followed by those of `b` |
| `Text.StripChars` | chat_memory.py:95-95 | `str.strip(chars)` is the contiguous middle of its input: it starts right after the leading run of characters in the set, and only characters in the set follow it. Neither of its ends is in the set. It keeps an already stripped string, and it is empty exactly when every character is in the set |
| `Text.BeforeFirst` | model_loader.py:64-64 | `s.split(sep)[0]` is a prefix of `s` with no occurrence of `sep` starting inside it. When `sep` occurs, the prefix is followed by `sep`; otherwise it is all of `s` |
| `Text.StripKeepsOnlyOccurrences` | model_loader.py:64-64 | Stripping never creates an occurrence of a substring |
| `Sequences.Last` | chat_memory.py:43-43 | `s[-n:]` for `n >= 1` keeps the last `min(n, len)` elements in order |
| `Sequences.LastConcat` | chat_memory.py:12-25 | Keeping the last `n` twice is the same as keeping them once at the end |
| `Sequences.DistinctCard` | chat_memory.py:88-88 | A list with no repetition has as many distinct elements as it is long. A listing of a set therefore has the set's size |

## Left out

- Timestamps: `_get_timestamp` reads the clock. The timestamp is a parameter `now` of
  `AddTurn`, and no property depends on its value.
- Logging calls in both files are left out; they have no effect on the state.
- Python set iteration order is hash-based. It is a parameter, required only to list the
  set without repetition. So no lemma says which 15 (or 5) keywords are kept or shown.
- `ContextManager.memory` and `current_topic` are written once at construction and never
  read. The tracker holds no buffer, and so it cannot change one.
- `window_size <= 0` is excluded by the invariant `Valid` (`window_size >= 1`). A negative
  size makes `deque` raise, and 0 gives degenerate slices.
- `max_tokens_per_turn` is a `nat`. A negative limit would give Python's negative-slice
  behaviour, which is not modelled.
- Extra keys in an imported dictionary: a record is modelled by its four known keys
  (`turn_id`, `user`, `bot`, `timestamp`), each possibly absent.
- `Text.Lower` lower-cases ASCII `A`-`Z` only; Python's full Unicode lower-casing is
  left out. `Text.Whitespace` is the full set of characters for which `str.isspace()` holds.
- ChatMemory.ImportConversation: Python dictionaries are shared, mutable objects.
  `export_conversation` returns the stored dictionaries themselves, and
  `import_conversation` stores the caller's dictionaries. A later change to either one by
  the caller changes the stored turn. The model treats records as immutable values, so
  this aliasing is not modelled.
- ChatMemory.ImportConversation: the import checks only that the `user` and `bot` keys
  are present, so a value that is not a string (for example `None`) is kept and later
  rendered as its string form (`Human: None`). The model gives record texts the type
  `Option<string>`: a key is either absent or holds a string.
- model_loader.py apart from `_clean_response`: loading the tokenizer and model, device
  and dtype choice, `generate_response`, and `get_model_info`. These are calls into a
  machine-learning library, with no behaviour visible to this model.
- interface.py, the interactive loop, is not part of this model.
