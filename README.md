# The vault-ai chat protocol, modelled in Dafny

The Obsidian plugin `vault-ai` stores a chat with a language model as one
markdown note. The note body is cut into turns by the literal separator
`<hr class="vault-ai-sep">`. A turn may open with a fenced `yaml` code block
that holds the message's fields (role, tool calls, …). The assistant's reply
streams in as partial deltas. The deltas are deep-merged into one response,
with strings concatenated. The note is rewritten after every delta, and an
empty turn carrying the next role is appended at the end. A second command
sends every file the note links to for transcription, whatever its type, so a
linked markdown note or image is sent as well. It splices each transcript in
after the references to its file. The first request that fails ends the
command, and the links after it are left as they are.

This project models those handlers of `main.ts` and proves what they promise:

- `wrappers.dfy` (`Wrappers`): `Option`.
- `text.dfy` (`Text`): `indexOf`, `split` and `join` on strings. It proves the
  split/join round trip, the piece count, separator-free pieces, splitting a
  concatenation, and splitting a suffix.
- `json.dfy` (`Json`): JSON values and lodash `mergeWith` with the
  string-concatenating customiser, as `Merge`. `Accumulator` is the response
  object the handler mutates, one delta at a time (`Absorb` walks the
  delta's keys as lodash does). `Fold` is a whole stream merged in order.
- `vault.dfy` (`Vault`): a note whose text `vault.process` rewrites through a
  callback.
- `chat.dfy` (`Chat`): the "AI Chat" command. It covers the frontmatter strip,
  turn segmentation, turn decoding (with the in-place removal of the leading
  code block), `processResponse`, and the per-chunk and final writes, with
  `Converse` and `AiChat` as the loops.
- `transcribe.dfy` (`Transcribe`): the "Transcribe" command. It covers
  `encodeURI` (section 19.2.6 of ECMA-262, with UTF-8 as in RFC 3629), the
  four reference forms, the leftmost-first global replacement, the splice
  callback, and the loop over linked files.
- `plugin.dfy` (`Plugin`): the "Add Separator" command, the sanitised
  timestamp of a recording's file name, and settings loaded over their
  defaults.

The markdown and YAML libraries and the coercion of a non-string to text are
parameters: the fields of `Chat.Codecs`. The chat stream is a given sequence
of deltas. A transcription result is a given `Option` per linked file.

Behaviour worth knowing:

- Arrays in a delta are merged index by index into the accumulated array;
  they are not replaced (`Json.ArraysMergeByIndex`).
- The rendered turn always opens with a `yaml` block, even when no field
  other than `content` is left.
- The splice replaces every reference, not only the first. Each one is
  replaced by the text of the first match, a blank line and the transcript.
- A turn gets the role `user` only when it has no leading code block. A
  leading code block that is not `yaml`, or YAML without a `role`, leaves
  the message without a role.
- The per-chunk write puts the separator before the rendered reply, not
  after it.

## Model

| member | source | states |
|---|---|---|
| Text.Split | main.ts:223 | `split`, by its definition: the text up to each occurrence of the separator, searched for left to right; its properties are the lemmas below |
| Text.Join | main.ts:218 | `join`, by its definition: the pieces with the separator between each two; `JoinSplit` is its partner |
| Text.IndexOfLeftmost | main.ts:223 | the search finds an occurrence, with none between the start and it; `None` means none at all |
| Text.JoinSplit | main.ts:223 | joining the pieces of a split with the separator gives the text back |
| Text.SplitPiecesAreFree | main.ts:223 | no piece of a split contains the separator |
| Text.SplitCount | main.ts:223 | for a separator whose occurrences cannot overlap, a split has one piece more than there are occurrences |
| Text.SplitConcat | main.ts:223 | splitting `a + sep + b` gives the pieces of `a` followed by those of `b`, when no occurrence straddles the join |
| Text.SplitFree | main.ts:223 | a text without the separator is one piece |
| Text.SplitSuffix | main.ts:218 | dropping the first `k` pieces leaves the split of the suffix that starts right after an occurrence |
| Text.JoinSuffix | main.ts:218 | joining the pieces from the `k`-th on gives the suffix where that piece starts |
| Chat.SepOverlapFree | main.ts:223 | two occurrences of the separator never overlap |
| Chat.SepNoStraddle | main.ts:302 | a separator appended after any text starts no occurrence inside that text |
| Chat.NewlinesFree | main.ts:302 | blank lines around a text without the separator add none |
| Chat.LineCount | main.ts:218 | a text has one line more than it has newlines |
| Chat.StripFrontmatter | main.ts:214-219 | by its definition: the whole text without frontmatter, else its lines after the frontmatter's closing line, joined with newlines, or `""`; `StripFrontmatterSuffix` states what that is |
| Chat.StripFrontmatterSuffix | main.ts:214-219 | after frontmatter ending on line `n`, the body is the suffix after the `n+1`-th newline, with the text's lines from `n+1` on; it is `""` when there are not that many lines |
| Chat.Segmentation | main.ts:223 | the turns number the separators plus one, hold no separator, and join back to the body |
| Chat.MessageCount | main.ts:223-256 | the request holds one message per turn |
| Chat.DecodeTree | main.ts:229-255 | by its definition: the message a parsed turn stands for; `DecodeTreeFields` states it field by field |
| Chat.DecodeTurn | main.ts:228-255 | by its definition: a turn parsed as markdown, then decoded by `DecodeTree` |
| Chat.DecodeAll | main.ts:223-256 | by its definition: `parts.map` over the turns; `MessageCount` and `ChatDecode` are its partners |
| Chat.DecodeTreeFields | main.ts:229-255 | a leading code block is dropped; only a `yaml` block gives fields; `content` is always the re-serialised rest and overrides; without a leading code block the message is `{role: "user", content}` |
| Chat.Root.RemoveFirst | main.ts:241 | `splice(0, 1)` drops the first child and keeps the rest in order |
| Chat.DecodePart | main.ts:226-256 | the in-place decoding of one turn yields the message `DecodeTurn` specifies |
| Chat.Render | main.ts:371-377 | `processResponse`, by its definition: the fenced YAML of every field but `content`, a blank line, then the content; `RenderShape`, `RenderFree` and `RenderDecode` state its properties |
| Chat.RenderShape | main.ts:371-377 | the rendered turn opens the `yaml` fence, holds the YAML of every field but `content`, and ends with the content verbatim or with nothing when it is `null`/missing |
| Chat.RenderFree | main.ts:371-377 | the rendered turn holds no separator when neither the YAML written nor the content does |
| Chat.RenderDecode | main.ts:371-377 | the turn a chat leaves for the response (the rendered response between blank lines) decodes back to the response, given that the markdown parser reads a `yaml` code block (whatever value `v` it keeps of the fence, final line ending dropped or not) followed by nodes serialising to the content, and that YAML parses `v` to the other fields |
| Chat.ChunkDoc | main.ts:301-303 | by its definition: the note after a chunk, the original text, the separator and the rendered response between blank lines; `ChunkTurns` states its turns |
| Chat.Role | main.ts:307 | by its definition: `tool` when the response's `tool_calls` is truthy, else `user`; `RoleWithoutToolCalls` and `RoleWithToolCalls` tie it to the stream |
| Chat.RoleBlock | main.ts:308 | by its definition: a fenced `yaml` block holding only the next role; `RoleBlockFree` and `ChatDecode` state its properties |
| Chat.FinalDoc | main.ts:306-309 | by its definition: what the note holds, then the separator and the role block between blank lines; `FinalTurns` states its turns |
| Chat.RoleBlockFree | main.ts:308 | the role block holds no separator when its YAML does not |
| Chat.RoleWithoutToolCalls | main.ts:292-307 | when no delta carries `tool_calls`, the response has none and the next turn is the user's |
| Chat.RoleWithToolCalls | main.ts:292-307 | when a delta carries an array of `tool_calls` and no later delta carries anything but `undefined` or an array there, the response holds an array there and the next turn is the tool's |
| Chat.ToolCallArguments | main.ts:295-299 | the pieces of `tool_calls[i].function.arguments` from successive deltas are concatenated |
| Chat.ChunkTurns | main.ts:301-303 | a chunk write gives the turns of the original text, then the rendered response as one turn |
| Chat.FinalTurns | main.ts:306-309 | the final write appends exactly one turn, the role block, to whatever the note holds |
| Chat.ChatTurns | main.ts:301-309 | after a streamed chat the note holds the original turns, the response turn and the role turn, when neither the YAML written nor the content holds the separator |
| Chat.ChatDecode | main.ts:301-309 | reading the note back after a chat, the second-to-last message is the response and the last is `{role, content: ""}` with the next role, given that the parser's `yaml` code values `v` (response) and `w` (role block) parse back to the fields written, whatever line ending the parser keeps |
| Chat.Converse | main.ts:290-309 | the response is the in-order fold of the stream's deltas; the note ends as the last chunk write followed by the role block |
| Chat.AiChat | main.ts:211-309 | the messages are the decoded turns of the body after the frontmatter; the response and note are as in `Converse` |
| Json.Merge | main.ts:295-299 | `mergeWith` with the customiser, by its definition: objects key by key, arrays index by index, a string onto a string concatenated, `undefined` keeping, anything else replacing; `MergeAt` and the lemmas after it state its properties |
| Json.MergeFields | main.ts:295-299 | the merged object has the keys of both sides |
| Json.MergeItems | main.ts:295-299 | the merged array is as long as the longer side |
| Json.GetMergeFields | main.ts:295-299 | merging objects merges the values found at each key |
| Json.MergeAt | main.ts:295-299 | at the end of any path through the delta, the merged value is the merge of the two sides' values there (the customiser applies at any depth) |
| Json.MergeConcatAt | main.ts:296-297 | where both sides hold strings at a path, the result is the accumulated string followed by the delta's |
| Json.MergeKeepsAt | main.ts:295-299 | what the delta leaves `undefined` keeps its accumulated value |
| Json.MergeReplacesAt | main.ts:295-299 | a scalar delta value, `null` included, replaces the accumulated one, and so does a string over a non-string |
| Json.MergeIntoNothing | main.ts:291-299 | merging into a missing value yields the delta's value itself |
| Json.MergeOrderMatters | main.ts:296-297 | the merge depends on order: "He" then "llo" gives "Hello", the other order "lloHe" |
| Json.ArraysMergeByIndex | main.ts:295-299 | arrays merge index by index: `["a"]` merged with `["a", "b"]` gives `["aa", "b"]` |
| Json.StreamCompatiblePrefix | main.ts:292-299 | a stream that merges without container clashes still does when cut short |
| Json.StreamedText | main.ts:292-299 | a field that is a string or absent in every delta ends up as all the deltas' texts in arrival order |
| Json.Accumulator.Absorb | main.ts:295-299 | merging a delta in place, key by key, leaves the response equal to `MergeFields` of the old response and the delta |
| Json.WalkedStep | main.ts:295-299 | merging one key of the delta changes that key alone, from its value before the walk |
| Vault.Note.Process | main.ts:301-303 | the note's text becomes the callback applied to its current text |
| Transcribe.Utf8RoundTrip | main.ts:172-173 | the UTF-8 bytes of a code point decode back to it, with lead and continuation bytes of the right form |
| Transcribe.EncodeURIAppend | main.ts:172-173 | `encodeURI` works character by character |
| Transcribe.EncodeURIKeeps | main.ts:172-173 | a text made only of characters `encodeURI` keeps is its own encoding |
| Transcribe.EncodeURI | main.ts:172-173 | `encodeURI`, by its definition: a kept character as it is, any other as the `%XX` escapes of its UTF-8 bytes; the three lemmas after it state its properties |
| Transcribe.EncodeURIChars | main.ts:172-173 | the encoding consists only of kept characters and `%` |
| Transcribe.Forms | main.ts:172-175 | the four alternatives of the pattern, in order: wiki link and embed of the encoded name, then of the encoded path |
| Transcribe.MatchAt | main.ts:174-175 | at a position, the first alternative in order that occurs there is chosen; none means none occurs |
| Transcribe.FindFrom | main.ts:177 | the first match at or after a position: an occurrence of the alternative it names; `FindFromLeftmost` states that it is the leftmost |
| Transcribe.FindFromLeftmost | main.ts:177 | the match found is an occurrence, no alternative occurs before it, and no earlier alternative at it; without a match none occurs at all |
| Transcribe.ReplaceFrom | main.ts:183-186 | the global `replace`, by its definition: each leftmost match in turn replaced, the search going on after it; `ReplaceWeave` states what it makes |
| Transcribe.ScanWeave | main.ts:183-186 | the gaps and matches of the global search, woven back together, are the text |
| Transcribe.ScanParts | main.ts:183-186 | each match is one of the four forms, and no form occurs inside a gap |
| Transcribe.ReplaceWeave | main.ts:183-186 | the replacement puts the replacement text at every match and keeps every gap as it is |
| Transcribe.Splice | main.ts:170-191 | the `vault.process` callback, by its definition: the note as it is without a match, else the global replace with the first match's text, a blank line and the transcript; `SpliceSpec` states what that is |
| Transcribe.SpliceSpec | main.ts:170-191 | with no reference the note is unchanged; otherwise every reference is replaced by the first reference's text, a blank line and the transcript, and all text between references is untouched |
| Transcribe.Run | main.ts:132-193 | by its definition: the linked files in order, each splicing its transcript in, the first failed request ending the run; `RunStopped` and `RunAppend` state its properties |
| Transcribe.RunStopped | main.ts:132-193 | once a transcription request fails, later linked files change nothing |
| Transcribe.RunAppend | main.ts:132-193 | the splices compose: later files work on the note the earlier ones left |
| Transcribe.TranscribeLinks | main.ts:132-193 | the loop over linked files leaves the note as the fold of the splices, stopping at the first failed request |
| Plugin.AddSeparator | main.ts:332 | `replaceSelection`, by its definition: the selection replaced by the separator on a line of its own; `AddSeparatorTurns` states its turns |
| Plugin.AddSeparatorTurns | main.ts:327-334 | replacing the selection with the separator line cuts the note into the turns before and after the selection |
| Plugin.Sanitize | main.ts:79-81 | sanitising keeps the length |
| Plugin.SanitizeSpec | main.ts:79-81 | colons and full stops become hyphens, nothing else changes, none is left, and sanitising twice is sanitising once |
| Plugin.FileName | main.ts:79-81 | by its definition: the sanitised timestamp, a full stop and the extension; `FileNameParts` is its partner |
| Plugin.FileNameParts | main.ts:78-81 | the recording's name splits at its only full stop into the sanitised timestamp and the extension |
| Plugin.LoadSettings | main.ts:407-409 | `Object.assign({}, DEFAULT_SETTINGS, data)`, by its definition: the stored settings over the defaults; `LoadSettingsSpec` and `SaveLoad` state its properties |
| Plugin.LoadSettingsSpec | main.ts:407-409 | stored keys override the defaults, defaults fill the rest, nothing else appears |
| Plugin.SaveLoad | main.ts:407-413 | saving the loaded settings and loading them again gives the same settings |

## Left out

- Json.Accumulator.Absorb, Json.Merge and Chat.Converse: require that an array never meets a plain object at the same key path (`Compatible`). lodash handles that case through its array-likeness and prototype rules, which are not modelled.
- Json.Json: numbers are unbounded integers. The floating-point numbers of JavaScript are not modelled, and they only ever replace.
- Json.MergeFields: an object is a map, so the key order of the serialised YAML is not modelled.
- Transcribe.Splice and Transcribe.ReplaceFrom: the encoded name and path go into a regular expression unescaped, so `.` or `(` in a file name act as metacharacters, and `$&`-style patterns in a transcript are expanded by `String.replace`. The model matches and inserts literally.
- Transcribe.EncodeURI: a Dafny `char` is a Unicode scalar value, so the `URIError` that `encodeURI` throws on a lone surrogate cannot arise.
- Transcribe.TranscribeLinks: a failed read or transcription request is `None`, which ends the loop as the rejected promise does. Every linked file is sent, audio or not (main.ts:136 tests only that the link resolves to a file), so a linked note or image that the service rejects ends the loop there. The request itself (`readBinary`, `toFile`, the MIME type, the whisper-1 call) is not modelled.
- Chat.Codecs: `parseMarkdown`, `stringifyMarkdown` (with the wiki-link extension), `parseYaml`, `stringifyYaml` and the template-literal coercion are given functions. YAML that does not decode to a mapping, and parse errors, are not modelled.
- Chat.AiChat: the chat request (model, tool declaration, streaming transport) is the given stream of deltas, and `chunk.choices[0].delta` is each element. The editor text and the frontmatter position reported by the metadata cache are parameters.
- Chat.Converse: the writes run one after another. The asynchrony of `vault.process` and concurrent edits by the user are not modelled.
- The recording ribbon command (starting and stopping the recorder, writing the audio file, inserting the embed, and the note file name made with `fileName.replace(extension, "md")`) is host and device I/O. Only the sanitised timestamp is modelled.
- The settings tab, notices, status bar, modal, icons and console logging are user interface and are not modelled.
