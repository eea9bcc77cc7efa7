# JacobiChatRoom in Dafny

A verified model of the state-bearing logic of JacobiChatRoom, a Flask + Socket.IO chat room.
The model covers two sides.

- **Server (`main.py`).**
  - The `online_users` registry of connected clients, changed by the `connect` and `disconnect` handlers.
  - The display-name picker `get_random_name`.
  - The `message` and `image_message` handlers. Each stores the raw text and then broadcasts its rendering. When `handle_message` fails it sends the sender a private error; `handle_image_message` has no `try` and lets the exception escape.
  - The `/history` ordering, the upload extension check `allowed_file` and the log-line truncation.
- **Browser client (`static/js/main.js`).**
  - `escapeHtml`.
  - The message box's keyboard editing: Ctrl+Enter, Enter and Tab.
  - The trim guard of the submit listener.
  - The type and size guards of the three image-upload paths: file picker, paste and drag-and-drop.

Files and modules:

- `wrappers.dfy` (`Wrappers`): `Option`.
- `text.dfy` (`Text`): string helpers.
  - Python's `str.strip` and JavaScript's `trim`, each with its own whitespace table.
  - Decimal printing as `f"{n}"` does it.
  - ASCII lower-casing and prefix tests.
- `names.dfy` (`Names`): `get_random_name`.
  - Base names are loaded by a pure function.
  - Candidates are built by the nested loops, proved against a recursive specification.
  - The random choice is a nondeterministic pick (`:|`).
- `storage.dfy` (`Storage`): the message table's rows, the history query and reversal, `allowed_file`, log truncation and the image markup.
- `server.dfy` (`Server`): the class `ChatServer`.
  - Fields: `onlineUsers` (the dict), `joinOrder` (the dict's key insertion order, which `list(online_users.values())` follows), `messages` (the table, append-only) and `outbox` (every `emit`, in order).
  - Its `Valid()` invariant states two things:
    - the order list and the dict agree;
    - the k-th `message` broadcast carries the author and the rendering of the k-th row inserted since start-up (persist before broadcast).
  - Each Socket.IO handler is one method, run as one atomic step. The source has no locking, and interleavings are not modelled.
  - A two-user scenario over a one-name file closes the module.
- `client.dfy` (`Client`):
  - the escaper and its reference definition and inverse;
  - the key classifier;
  - the `MessageInput` class (text area value and selection);
  - the submit guard;
  - the upload guards, with the paste and drop loops as methods.

The environment is taken as parameters:

- the names file's lines, or `None` when reading it raises;
- whether the database insert and commit succeed (`dbOk`);
- the stored and the broadcast timestamps;
- the two markdown renderers, as function-typed fields;
- the `/upload` fetch outcome, as an `Option<string>` URL per file.

## Model

| member | source | states |
|---|---|---|
| Text.Strip | main.py:116 | `str.strip()`: the result is the slice left after cutting whitespace from both ends; all cut characters are whitespace, and a non-empty result neither starts nor ends with whitespace |
| Text.StripEmptyIff | main.py:116 | a stripped line is empty exactly when the line is all whitespace, so `if line.strip()` drops exactly the blank lines |
| Text.StripUnchanged | main.py:116 | a text that neither starts nor ends with whitespace is its own strip |
| Text.StripIdempotent | main.py:116 | stripping twice is stripping once |
| Text.DecimalRoundTrip | main.py:126 | the digits `f"{n}"` prints read back as `n` |
| Text.Decimal | main.py:126 | `f"{n}"` of a non-negative int: at least one digit, all characters digits, and a leading zero exactly for 0 |
| Text.DecimalInjective | main.py:126 | distinct numbers print as distinct digit strings |
| Text.DecimalLength4 | main.py:133 | every `randint(1000, 9999)` value prints as exactly four digits |
| Text.AsciiLower | main.py:227 | lower-casing keeps the length and maps each character independently, changing only A..Z |
| Names.Variant | main.py:126 | `f"{name}{i}"` starts with the base name, is longer than it, and continues with the digits of `i` |
| Names.VariantInjective | main.py:125-127 | distinct suffixes give distinct variants of a base name, so each try of the inner loop tests a new name |
| Names.GuestName | main.py:133 | `f"访客{n}"` is the guest prefix followed by the digits of `n` |
| Names.GuestNameShape | main.py:133 | a fallback name is "访客" followed by exactly four digits |
| Names.LoadNames | main.py:116 | the loaded names are no more than the lines, and each is non-empty with no surrounding whitespace |
| Names.LoadNamesDropsBlankLines | main.py:116 | a further line adds its stripped text to the name list exactly when it is not all whitespace |
| Names.FirstFreeSuffix | main.py:125-129 | the inner loop's result is the least suffix in 2..99 whose variant is free; with no result, every variant is taken |
| Names.Contribution | main.py:120-129 | a free base name is its own candidate; a base name in use contributes only `name+i` for the least free `i` in 2..99, or nothing exactly when all 98 variants are taken; no contribution is in use |
| Names.Candidates | main.py:119-129 | `available_names` holds at most one name per base name, and none of them is in use |
| Names.CandidatesSound | main.py:119-129 | every candidate is contributed by some base name |
| Names.CandidatesComplete | main.py:119-129 | whatever a base name contributes is a candidate |
| Names.CandidatesFor | main.py:114-136 | an unreadable names file gives no candidates, and no candidate is in use |
| Names.CandidatesSpec | main.py:119-129 | a name is in `available_names` exactly when some base name contributes it, so no candidate is held by an online user |
| Names.FreeBaseNameIsCandidate | main.py:121-122 | every base name not in use is offered |
| Names.SingleNamePoolOffersSuffix | main.py:120-129 | with base name "Alex" held, the only candidate is "Alex2" |
| Names.BuildCandidates | main.py:119-129 | the nested loops with `append` and `break` build exactly the candidate list of the specification |
| Names.GetRandomName | main.py:112-136 | with candidates, the name is one of them and held by nobody online; with none, or when the file cannot be read, it is a guest name 访客1000..访客9999 |
| Storage.Reverse | main.py:222 | `xs[::-1]`: element k is element n-1-k of the input |
| Storage.QueryNewestFirst | main.py:215 | `ORDER BY timestamp DESC LIMIT 50` gives the newest min(50, n) rows, newest first |
| Storage.RenderRows | main.py:216-220 | each history entry carries its row's author and timestamp and the rendering of its raw text |
| Storage.GetHistory | main.py:210-222 | the history is the last min(50, n) rows in insertion order, oldest first, rendered; never more than 50 entries |
| Storage.LastDot | main.py:227 | the split point of `rsplit('.', 1)` holds a '.' and no later position does; absent exactly when there is no '.' |
| Storage.AllowedFile | main.py:224-227 | accepted exactly when the name has a '.' and the text after the last '.' lower-cases to png, jpg, jpeg or gif |
| Storage.TruncateForLog | main.py:203-204 | a log excerpt never exceeds 50 characters; one of up to 50 is kept whole; longer ones are their first 47 characters then "..." |
| Storage.TruncateIdempotent | main.py:203-204 | truncating an excerpt again changes nothing |
| Storage.ImageMarkup | main.py:259 | the stored image text starts with "![图片](", ends with ")" and has the URL's length plus 7 |
| Storage.ImageMarkupRoundTrip | main.py:259 | the URL can be read back from the stored markup |
| Server.Get | main.py:181 | `data.get(key, '')`: the field's value when the payload has it, the empty text otherwise |
| Server.Author | main.py:180 | the author is the sender's registered name, or "未知用户" for an unregistered connection |
| Server.RosterOf | main.py:149 | `list(online_users.values())`: entry k is the name of the k-th key in insertion order |
| Server.RosterMatchesUsers | main.py:149 | the roster holds exactly the registered names, one entry per connection |
| Server.RosterAppend | main.py:147-149 | a connection inserted for the first time appends its name to the end of the roster |
| Server.Without | main.py:155 | `pop` removes exactly that key from the order: an absent key leaves the order as it is, and a key held once is cut out of its position with the other keys keeping their relative order; the order stays free of duplicates |
| Server.UniqueInsert | main.py:146-147 | registering a name nobody holds keeps display names unique |
| Server.KeysInOrderInsert | main.py:147 | a dict assignment keeps the key order in step: a new key is appended, an existing key keeps its place |
| Server.PublishedAppend | main.py:195-199 | an emitted event is added to the published messages exactly when it is a `message` broadcast |
| Server.PersistedExtend | main.py:187-199 | storing a row together with its broadcast keeps the broadcasts paired with the stored rows |
| Server.ChatServer.constructor | main.py:62 | the server starts with an empty registry and outbox and the table as earlier runs left it |
| Server.ChatServer.Roster | main.py:149 | the `update_users` list: exactly the registered names, as many entries as connections |
| Server.ChatServer.EmitPresence | main.py:148-149 | a presence event is broadcast, then the roster as it now stands; no `message` broadcast is added |
| Server.ChatServer.Register | main.py:147 | `online_users[sid] = name`; a new connection's sid is appended to the key order and its name to the end of the roster; an existing key keeps its place |
| Server.ChatServer.Join | main.py:147-149 | the sid is registered under the name, a new sid going to the end of the key order and the roster; `user_joined` then the roster are broadcast; a name nobody holds keeps names unique |
| Server.ChatServer.HandleConnect | main.py:143-149 | the sid is mapped to the picked name and no other entry changes; a new sid is appended to the key order; the name is a free candidate, or a guest name when there are none; `user_joined` then the roster after insertion are broadcast; names stay unique when no fallback is used |
| Server.ChatServer.HandleDisconnect | main.py:151-157 | a registered sid is removed, and `user_left` with its name then the new roster are broadcast; an unregistered sid changes and emits nothing, so a second disconnect is a no-op |
| Server.ChatServer.Unregister | main.py:155 | `pop`: the key leaves the dict and is cut out of the key order, the others keeping their order |
| Server.ChatServer.EmitPrivate | main.py:208 | one event, sent to one connection only, is appended |
| Server.ChatServer.PersistThenBroadcast | main.py:187-199 | the row is inserted, then its rendering is broadcast; this is the only way a `message` broadcast arises |
| Server.ChatServer.HandleMessage | main.py:176-208 | on success, the raw text is stored under the author and its rendering broadcast; when the payload or the database step fails, nothing is stored or broadcast and exactly one private `error` goes to the sender |
| Server.ChatServer.HandleImageMessage | main.py:252-274 | on success, "![图片](url)" is stored and its plain rendering broadcast; a bad payload or a database failure raises before anything is stored or emitted |
| Server.ChatServer.History | main.py:210-222 | at most 50 entries: the newest rows of the table, oldest first, rendered |
| Server.LoadSingleName | main.py:116 | a file holding the single line "Alex" yields the name list ["Alex"] |
| Server.SingleNameFileFirstCandidate | main.py:119-122 | over that file, with nobody online, the only candidate is "Alex" |
| Server.SingleNameFileSecondCandidate | main.py:120-129 | over that file, with "Alex" online, the only candidate is "Alex2" |
| Server.JoinTwoUsers | main.py:143-149 | two connections over that file are registered as "Alex" and "Alex2" |
| Server.TwoUserSession | main.py:143-208 | after two joins, a message and two disconnects of the first user, the roster is ["Alex2"] and the table holds the one message under "Alex2" |
| Client.ReplaceAll | static/js/main.js:311-315 | `replace(/c/g, rep)`: every character of the result is from the input (and not `c`) or from the replacement |
| Client.ReplaceAllAppend | static/js/main.js:311-315 | a global replace distributes over concatenation |
| Client.ReplaceAllAbsent | static/js/main.js:311-315 | a global replace of an absent character changes nothing |
| Client.EscapeHtmlAppend | static/js/main.js:310-315 | escaping distributes over concatenation |
| Client.EscapeHtmlChar | static/js/main.js:311-315 | with `&` replaced first, one character escapes to exactly its entity; later replacements leave the entities alone |
| Client.EscapeHtmlIsPerCharacter | static/js/main.js:310-315 | the chain of five replacements equals escaping each character independently, so nothing is escaped twice |
| Client.EscapeHtml | static/js/main.js:309-316 | the output holds no `<`, `>`, `"` or `'` |
| Client.EscapeHtmlAmpersandsBeginEntities | static/js/main.js:310-315 | every `&` of the output begins one of &amp; &lt; &gt; &quot; &#039; |
| Client.EscapeHtmlPlainText | static/js/main.js:311-315 | a text with none of the five characters is returned unchanged |
| Client.EscapeHtmlRoundTrip | static/js/main.js:309-316 | decoding the five entities gives back the original text |
| Client.Splice | static/js/main.js:133 | the selection is replaced: prefix kept, inserted text next, tail from the selection end; the new length is the old length minus the selection's plus the inserted text's |
| Client.Classify | static/js/main.js:127-153 | Ctrl+Enter inserts a newline whatever Shift says and never submits; Enter submits exactly without Ctrl and Shift; Tab inserts spaces; Shift+Enter and every other key are left to the browser |
| Client.SubmittedText | static/js/main.js:68-69 | nothing is sent exactly when the box is all whitespace; otherwise the trimmed text, which neither starts nor ends with whitespace |
| Client.MessageInput.InsertAtSelection | static/js/main.js:131-134 | the selection is replaced by the text, and the caret is collapsed right after the insertion |
| Client.MessageInput.OnSubmit | static/js/main.js:66-82 | the trimmed text is emitted and the box is cleared when it is non-blank; a blank box changes nothing |
| Client.MessageInput.OnKeyDown | static/js/main.js:127-153 | Ctrl+Enter splices "\n" and puts the caret at start + 1; Tab splices four spaces and puts it at start + 4; Enter without Shift runs the submit guard; anything else changes nothing |
| Client.IsImageType | static/js/main.js:90 | `startsWith('image/')`: the type begins with "image" and a slash follows |
| Client.Upload | static/js/main.js:101-123 | an accepted file has exactly one effect: its URL is emitted when the upload returned one, the failure notice is shown otherwise |
| Client.OnImagePicked | static/js/main.js:85-124 | no file does nothing; a non-`image/` type or a file over 16·1024·1024 bytes is refused with its notice and not uploaded; otherwise the upload's URL is emitted, or the failure notice is shown |
| Client.IsPastedImage | static/js/main.js:160 | `indexOf('image') === 0` accepts every type the picker and drop accept |
| Client.PasteTestIsLooser | static/js/main.js:160 | a bare "image" type passes the paste test but not `startsWith('image/')` |
| Client.OnPaste | static/js/main.js:156-192 | the browser's paste is prevented exactly when some item's type starts with "image"; only the first such item is handled, with at most one upload, and it is refused when over 16 MB |
| Client.DropOne | static/js/main.js:215-239 | a non-image is skipped silently; an image over 16 MB shows only its notice; an image within the limit is uploaded, emitting exactly its URL when the fetch returned one and showing exactly the failure notice otherwise |
| Client.DropEffects | static/js/main.js:214-241 | the files are handled in order, each yielding at most one upload or one notice |
| Client.DropEffectsAppend | static/js/main.js:214-241 | handling a drop batch in two parts is handling the parts one after the other |
| Client.DropSkipsOversized | static/js/main.js:214-219 | an oversized image adds only its notice, and the files after it are still handled |
| Client.DropEmitsOnlyAcceptedImages | static/js/main.js:215-235 | every emitted URL is the upload result of some `image/` file within the limit |
| Client.DropEmitsAcceptedImages | static/js/main.js:215-235 | conversely, the URL of every `image/` file within the limit whose upload succeeded is emitted |
| Client.OnDrop | static/js/main.js:207-242 | the loop with `continue` handles the files in order, exactly as the per-file specification says |

## Left out

- SQLite itself (`init_db`, `DatabaseConnection`, the query engine). The table is an append-only sequence; the insert and commit outcome is the parameter `dbOk`.
- Storage.QueryNewestFirst: `ORDER BY timestamp DESC` is modelled as reverse insertion order. Rows sharing a timestamp (one-second resolution) may come back in another order in SQLite.
- Socket.IO delivery. Each `emit` is an `Outbound` entry: a broadcast, or a send to the sender only.
- The markdown renderers `convert_markdown`/`markdown.markdown` and `marked.parse`. They are foreign libraries; the server takes them as uninterpreted functions.
- The `unicode_escape` encoding applied before log truncation, which is a codec. Only the 50/47 rule is modelled, on the already-escaped text; the logging setup and `UTF8RotatingFileHandler` are I/O.
- The Flask routes, `render_template`, `upload_file`'s request checks, `secure_filename`, the timestamped file name, `file.save` and `url_for`. These are framework and filesystem code. The client sees an upload's outcome as the `Option<string>` response.
- The `on_error` handlers. Server.ChatServer.HandleImageMessage reports that its exception escaped (`raised`); the framework's `error` reply to it is not modelled.
- Server.ChatServer.HandleImageMessage: payload fields are strings. A non-string `url` does not raise in the source: the f-string stores its `str()`, for example "![图片](None)"; the model does not cover that case.
- Server.ChatServer.HandleMessage: payload fields are strings. A non-string `message` value, on which `convert_markdown` raises, is not modelled apart from a payload that is not an object.
- `random.choice`, `random.randint` and `datetime.now()`. The picks are nondeterministic choices, and the timestamps are parameters.
- Text.AsciiLower: Python's `str.lower()` is modelled as ASCII lower-casing. For `allowed_file` this is exact: the only non-ASCII characters whose Python lower-case holds an ASCII letter are U+0130 (to "i" plus a combining dot) and U+212A (to "k"), and neither can complete png, jpg, jpeg or gif.
- Concurrency between handlers. The source has no locking, so each handler is one atomic step.
- The DOM and fetch glue of the client: `addMessage`, `addSystemMessage`, `updateUserList`, `scrollToBottom`, the socket listeners, the history loader and the drag-over styling. The handlers return what they would emit and show instead.
- Client.MessageInput.OnSubmit: the `disabled` toggle around `emit` is left out. So is the `catch` path, which runs only if `socket.emit` throws and then shows a notice and keeps the text.
- Client.OnImagePicked: the reset of the file input after a successful upload (`imageInput.value = ''`) is DOM state and is left out.
- Client.OnPaste: the clipboard item's type and its file's size are modelled as one record; `getAsFile` returning null is not modelled.
- Client.MessageInput: strings are sequences of Unicode characters. Browser text fields measure the selection in UTF-16 code units, which differs for characters outside the Basic Multilingual Plane.
- `escapeHtml` is defined in the client script but never called; names are shown through `textContent` and messages through `marked.parse`. It is modelled as the pure function it is.

Behaviour of the source worth noting:

- The fallback author is the literal "未知用户" (unknown user).
- `handle_image_message` has no `try`, unlike `handle_message`. A failure there sends no `消息发送失败` error.
- The paste path accepts any type beginning with "image"; the picker and drop paths require "image/".
- The picker refuses a non-image file with a notice; the drop path skips it silently.
