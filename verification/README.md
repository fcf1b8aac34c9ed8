# goerp: a verified model of its hard parts

goerp is a modular ERP engine written in Go, with a command line tool that generates code
and manifests for its modules. This project models the parts of it where a mistake is
easy to make and hard to see, and proves what those parts are for:

- **The manifest rewriter** (`JsonLex`, `JsonGrammar`, `JsonTree`, `JsonFormat`,
  `JsonWords`, `ManifestTree`, `ManifestLayout`, `ManifestEdit`, `ManifestRewrite`,
  `Manifest`, `ManifestSplice`, `ManifestDotted`, `ManifestLaws`, `ManifestBytes`,
  `ManifestAgain`). Generated blocks are spliced into a hand-written JSON manifest without
  touching anything else. Text is read into a concrete syntax tree that keeps every byte;
  the byte-level splicer is proved to print the edited tree, and the laws are stated on
  scanned text: what the values say, word by word, and which bytes stay.
- **The name-reference scanner** (`Tokens`, `TokenGrammar`, `TokenPlaces`, `Literals`,
  `NameRefs`, `SourceRefs`). Two mutually recursive tokenizers for TypeScript with nested
  template literals, the decoder of string literals, and the printer it inverts. What a
  token is, where tokens stand and which calls are references is also said without the
  tokenizers, and proved to be what they find.
- **Event streams** (`EventStream`, `PollState`). Batches of events become frames; the
  reader is the stream parser of section 9.2.6 of the WHATWG HTML standard, written down
  independently. The poll state is run against a client that reads everything sent.
- **View overrides** (`ViewTree`, `ViewOverrides`, `ServedViews`, `ServedNames`). Tenants
  override properties of view elements; writes are checked under a lock; served views are
  patched and reordered.
- **The TypeScript client generator** (`TypeShapes`, `TypeClosure`, `ClientPlan`,
  `ClientRun`, `ClientLaws`, `TypeMeaning`). Named types are registered while types are
  rendered; the final pass relies on the registry being closed by then. Rendered types and
  the descriptions they come from are compared by the JSON values they admit.
- **Module selection for development** (`DevModules`): a three-colour depth-first search.
- **Activity types** (`ActivityTypes`, `ActivityTypeStore`): a table with a cap, a
  last-active rule, positions and seeding, refined against a plain list.
- **Due reminders** (`ReminderClock`, `Reminders`, `ReminderProtocol`): the paging loop
  over a changing table, the calendar cutoff, and overlapping runs as a state machine.
- **Marker dedupe** (`Markers`): a slice filtered into its own prefix.

`Basics` and `Ordering` hold what several components share.

`dafny verify dfyconfig.toml` checks the whole project.

## What the code does that its purpose does not suggest

Five expected properties are false of the code. Each is kept as it is, shown by a lemma,
and replaced by the exact condition under which it holds.

- A block value in which an object repeats a name is accepted, because the formatter allows
  repeated names, and spliced in; the resulting manifest can then no longer be scanned
  (`RepeatedNamesBreak`). A successful rewrite leaves a manifest that scans exactly when no
  block's value repeats a name (`ScannableExactly`).
- Rewriting twice with the same blocks is not always a no-op (`WrittenTwice`). It is exactly
  when no block's value repeats a name and the blocks agree: those with one key want the same
  value, and one with a key below another's wants what the other's value holds there
  (`IdempotentExactly`). Blocks whose keys are apart always agree
  (`RewriteManifestIdempotent`).
- A client that reconnects with a cursor starts with an empty last event ID, as the
  standard says. Over any run of the stream, its ID is the server's cursor exactly if that
  cursor was empty or some event accepted so far had an ID (`ReconnectKeepsCursor`). A
  client that keeps its ID agrees always (`ClientInStep`).
- Overrides are checked by the name an element is declared under. By accepted writes, an
  element known by its label alone can be hidden and given the label of a required field
  (`RelabelledName`), and a sub-list can be given the label of a relation, which makes a
  hidden element in it one of the related model's (`RelabelledList`). Read by the names and
  resources of the served view, the views after any history are safe exactly when no element
  that a given label renames or puts under another resource conflicts there
  (`ServedNamesExactly`, `HistoryServedExactly`), so always where no such label is given
  (`UnlabelledServedSafe`). Read by declared names they always are (`HistoryServed`).
- A generated type does not admit every value its route's description does: an object type
  called `unknown` that may be null is spelled like the built-in type, which takes no null
  (`NullLost`). A rendered type never admits a value that is not described, and it admits
  all that are exactly when no such type occurs in it outside a model's object
  (`RenderedExactly`); so do all types of a generated client (`ClientMeans`).

And one is narrower than it sounds: a named type nested in an object that stands for a
model is not rendered there. All named types are registered exactly when those are also met
outside a model's object, in any rendered type (`ModelHides`, `RegisteredExactly`). The
generated file never mentions the others, so no reference is left undeclared
(`ClientClosed`).

## Model

| member | source | states |
|---|---|---|
| `JsonTree.ParsedValuePrints` | internal/module/manifest_blocks.go:181-215 | Reading loses nothing: the tree read from a text prints as exactly the text that was read. |
| `JsonTree.PrintedValueParses` | internal/module/manifest_blocks.go:181-215 | Printing loses nothing: a well-formed tree is the only reading of its text, wherever that text stands. |
| `JsonGrammar.NumberExactly` | internal/module/manifest_blocks.go:181-215 | A text is read as a number exactly if it is one by section 6 of RFC 8259: sign, integer part without leading zeros, fraction, exponent. |
| `JsonGrammar.StringExactly` | internal/module/manifest_blocks.go:181-215 | A text is read as a string exactly if it is one by section 7 of RFC 8259. |
| `JsonGrammar.ScalarExactly` | internal/module/manifest_blocks.go:181-215 | A scalar is a string, a number, `true`, `false` or `null`, and nothing else. |
| `JsonGrammar.ShortEscapes` | internal/module/manifest_blocks.go:181-215 | The escapes of two characters decode to the characters section 7 of RFC 8259 gives them. |
| `JsonGrammar.UnicodeDecodes` | internal/module/manifest_blocks.go:181-215 | Every character decodes from its `\u` escape, beyond the basic plane from its surrogate pair. |
| `JsonGrammar.LoneSurrogate` | internal/module/manifest_blocks.go:181-215 | A low surrogate on its own is no character, so the name it stands in is refused. |
| `JsonFormat.QuotedStands` | internal/module/manifest_blocks.go:156-166 | A new member's name, escaped as RFC 8259 section 7 asks, is one string token and decodes to the key, for every key. |
| `JsonFormat.StripIndent` | internal/module/manifest_blocks.go:235-243 | Reindenting changes white space only. |
| `JsonFormat.StripStrict` | internal/module/manifest_blocks.go:181-215 | Whether names repeat does not depend on white space. |
| `JsonFormat.SameJsonMeans` | internal/module/manifest_blocks.go:254-257 | Comparing compacted texts is comparing token trees; a text that is no JSON equals nothing. `JsonWords.WordsExactly` says what those trees hold. |
| `JsonWords.StripWords` | internal/module/manifest_blocks.go:254-257 | Compacting keeps what a value says: its brackets, names and scalar texts, in order. |
| `JsonWords.WordsExactly` | internal/module/manifest_blocks.go:254-257 | Two values compact to the same exactly if they say the same, word by word. |
| `JsonWords.SameJsonSays` | internal/module/manifest_blocks.go:254-257 | The comparison holds exactly if both texts are JSON and say the same. |
| `JsonWords.StripShorter` | internal/module/manifest_blocks.go:235-239 | No layout of a value is shorter than the compact one. |
| `ManifestTree.IndependentMeans` | internal/module/manifest_blocks.go:29-30 | Two dotted keys are independent exactly when they differ and neither is a dotted prefix of the other. |
| `ManifestTree.StyleBlank` | internal/module/manifest_blocks.go:217-252 | The style taken from the text around a member consists of white space. |
| `ManifestTree.FormattedMeans` | internal/module/manifest_blocks.go:217-243 | A formatted value has the tokens of the given one. |
| `ManifestLayout.StyleExactly` | internal/module/manifest_blocks.go:227-233 | The style is multi-line exactly if the white space before the first member has a line break; the indent is what follows the last one, the gap is that white space, and names get a colon and a blank; otherwise there is no white space at all. |
| `ManifestLayout.FormattedLayout` | internal/module/manifest_blocks.go:235-241 | A value goes on one line into an object that is on one line, and otherwise with every member on a line of its own at the object's indent, level by level. |
| `ManifestEdit.EditWellFormed` | internal/module/manifest_blocks.go:79-177 | Editing a well-formed object gives a well-formed object, for every list of blocks. |
| `ManifestEdit.EditRemoves` | internal/module/manifest_blocks.go:96-121 | Removing a key leaves exactly the other members; removing the only one is refused. |
| `ManifestEdit.EditReplaces` | internal/module/manifest_blocks.go:96-121 | Replacing changes one value in place, and nothing at all if the tokens are the same. |
| `ManifestEdit.EditAppends` | internal/module/manifest_blocks.go:98-168 | A new key goes behind all members. |
| `ManifestEdit.EditSkips` | internal/module/manifest_blocks.go:96-121 | Removing a key that is not there changes nothing. |
| `ManifestRewrite.EditMeans` | internal/module/manifest_blocks.go:79-177 | The edited object holds the wanted value, and a change is reported exactly if the held value differed. |
| `ManifestRewrite.EditFrame` | internal/module/manifest_blocks.go:79-177 | Lookups elsewhere give what they gave. |
| `ManifestRewrite.RewriteKeyMeans` | internal/module/manifest_blocks.go:26-76 | The same for dotted keys of any depth: the path holds the value, a change is reported exactly if it differed, and the result repeats a name only if the value does. |
| `ManifestRewrite.RewriteKeyFrame` | internal/module/manifest_blocks.go:26-76 | Every key that is neither the block's nor above nor below it keeps what it names. |
| `ManifestRewrite.RewriteKeyStable` | internal/module/manifest_blocks.go:55-57 | A path that already holds the wanted value is left alone. |
| `ManifestRewrite.EditVerbatim` | internal/module/manifest_blocks.go:79-177 | A plain key: the other members keep order, names and values; the key's own keeps its place or is added last. |
| `ManifestRewrite.RewriteKeyVerbatim` | internal/module/manifest_blocks.go:26-76 | The splice law at every depth along a dotted key: nothing but the block's own member changes. |
| `ManifestRewrite.RewriteKeyFails` | internal/module/manifest_blocks.go:26-121 | Exactly when a rewrite fails, and how: the path runs into something that is no object; the last member of an object would go; or a value that is to be written is no JSON or would be indented with a carriage return. |
| `Manifest.ScanReadable` | internal/module/manifest_blocks.go:181-215 | A scanned manifest is one object between blanks and whatever follows, printed from its tree, with no repeated name at any depth. |
| `Manifest.ScanSplice` | internal/module/manifest_blocks.go:181-215 | Text with the object's bytes replaced scans as the new tree if no name repeats in it, and otherwise not at all. |
| `Manifest.ReadMember` | internal/module/manifest_blocks.go:181-215 | One turn of the scanner finds the member's name and value where they stand, or refuses exactly a malformed or repeated one. |
| `Manifest.ScanManifestMembers` | internal/module/manifest_blocks.go:181-215 | Succeeds exactly if the text holds an object without repeated names, and then gives the byte positions of each member in order. |
| `ManifestSplice.PlanSplice` | internal/module/manifest_blocks.go:85-121 | The replacement and removal maps and the report agree with the edit of the tree. |
| `ManifestSplice.KeptSpans` | internal/module/manifest_blocks.go:123-128 | Exactly the members that are not removed, in order. |
| `ManifestSplice.WriteKept` | internal/module/manifest_blocks.go:133-150 | The bytes written for the kept members are those of the edited tree. |
| `ManifestSplice.WriteNew` | internal/module/manifest_blocks.go:151-168 | The bytes written for new members are those of the edited tree, or the value is refused. |
| `ManifestSplice.SpliceText` | internal/module/manifest_blocks.go:133-177 | Head, written members and the tail copied from the input make up the input with the edited object in place. |
| `ManifestSplice.RewriteManifestKeys` | internal/module/manifest_blocks.go:79-177 | The byte-level splicer prints the edited tree in place of the old one, with the same report and the same failures. |
| `ManifestDotted.SpliceValue` | internal/module/manifest_blocks.go:65-71 | Replacing the bytes of one member's value is replacing the value in the tree. |
| `ManifestDotted.ScanPrinted` | internal/module/manifest_blocks.go:45-54 | A member's value, cut out as text, scans as that value if it is an object, and otherwise not. |
| `ManifestDotted.InnerBlock` | internal/module/manifest_blocks.go:51-57 | Rewriting a value cut out as text gives the text of the rewritten value. |
| `ManifestDotted.RewriteBlock` | internal/module/manifest_blocks.go:28-73 | One block on text, plain or dotted: the tree rewrite, printed in place, or its failure. |
| `ManifestDotted.RewriteManifest` | internal/module/manifest_blocks.go:26-76 | All blocks in turn, each on the text the one before left, with the changed keys sorted; what values then say and which bytes stay is stated in `ManifestLaws` and `ManifestBytes`. |
| `ManifestLaws.BlockScans` | internal/module/manifest_blocks.go:26-76 | Scanning the output of one block gives the rewritten tree, with the same text before and behind it. |
| `ManifestLaws.BlockMeans` | internal/module/manifest_blocks.go:26-76 | On scanned text: the block's key holds its value, independent keys keep theirs, a change is reported exactly if the value differed, and no change leaves every byte. |
| `ManifestLaws.BlockScannable` | internal/module/manifest_blocks.go:235-243 | One block, whether it changes anything or not, leaves text that scans exactly if its value repeats no name. |
| `ManifestLaws.ScannableExactly` | internal/module/manifest_blocks.go:26-76 | A rewrite with any blocks that succeeds leaves a manifest that scans exactly if no block's value repeats a name. |
| `ManifestLaws.RepeatedNamesBreak` | internal/module/manifest_blocks.go:235-243 | A concrete value that is accepted and leaves a manifest that does not scan. |
| `ManifestLaws.BlocksMean` | internal/module/manifest_blocks.go:26-76 | For any list of blocks: the output scans, each block no later block overlaps has its value, and keys apart from all blocks keep theirs. |
| `ManifestLaws.VerbatimAt` | internal/module/manifest_blocks.go:26-177 | The splice law of one block, seen from any object under a path of names, also names that contain dots. |
| `ManifestLaws.BlocksVerbatim` | internal/module/manifest_blocks.go:26-177 | For any list of blocks and any object, at any depth, that no block writes as a whole: the members no block goes through keep their order, names and values, and a new object has none. |
| `ManifestLaws.SpliceVerbatim` | internal/module/manifest_blocks.go:26-177 | For one block, the same along the whole path of a dotted key. |
| `ManifestBytes.ReplacesInPlace` | internal/module/manifest_blocks.go:133-150 | Replacing a value changes nothing else of any member, white space included. |
| `ManifestBytes.AppendsBehind` | internal/module/manifest_blocks.go:151-168 | A new member goes right behind the last value, with the space that stood before the closing brace behind it. |
| `ManifestBytes.RemovesOne` | internal/module/manifest_blocks.go:123-150 | A removed member's successor takes its place, or its predecessor gets the space behind it; all other white space stays. |
| `ManifestBytes.RewriteBytes` | internal/module/manifest_blocks.go:26-177 | One block, at any depth, changes one piece of the object's text: the value for the value, a text put in and nothing out, or one member with its comma out and nothing in. |
| `ManifestBytes.BlockBytes` | internal/module/manifest_blocks.go:26-177 | The same on the manifest's text: every byte before and behind that piece is kept. |
| `ManifestLaws.ChangedMeans` | internal/module/manifest_blocks.go:28-76 | For blocks that are apart: the keys reported are those whose value differed, each once. |
| `ManifestLaws.SaysExactly` | internal/module/manifest_blocks.go:29-57 | What a key names equals what a block wants exactly if the value found there says, word by word, what the block's value says, or is missing where it should be. |
| `Ordering.LeqMeans` | internal/module/manifest_blocks.go:74-76 | The order keys are reported in: a beginning comes first, and otherwise the first differing character decides. |
| `ManifestLaws.RewriteManifestMeans` | internal/module/manifest_blocks.go:26-257 | The main theorem: the output scans; each block's key names a value that says, word by word, what the block's does, or nothing if it asks for removal; untouched keys say what they said; in every object the members no block goes through keep their order, names and values, and a new object has no others; the report is the sorted set of keys that said something else, empty exactly if no byte changed. |
| `ManifestAgain.SettledExactly` | internal/module/manifest_blocks.go:55-57 | Blocks change and report nothing exactly on text where each already has its value. |
| `ManifestAgain.FindBelow` | internal/module/manifest_blocks.go:29-54 | A dotted key names what its rest names inside what its first part names. |
| `ManifestAgain.IdempotentExactly` | internal/module/manifest_blocks.go:26-76 | Rewriting the output of a successful rewrite with the same blocks gives the same bytes and an empty report exactly if no value repeats a name and the blocks agree with each other. |
| `ManifestAgain.RewriteManifestIdempotent` | internal/module/manifest_blocks.go:26-76 | In particular for blocks whose keys are apart. |
| `ManifestAgain.WrittenTwice` | internal/module/manifest_blocks.go:26-76 | A rewrite that succeeds, and whose output the same two blocks write to again. |
| `Tokens.Code` | internal/codegen/namerefs.go:122-155 | Reading code stays within the input, and ends, also through nested templates. |
| `Tokens.TemplateAt` | internal/codegen/namerefs.go:157-189 | A template literal takes at least its first character and never more than the input. |
| `Tokens.CodeOrdered` | internal/codegen/namerefs.go:122-155 | Every token, also from inside interpolations, is cut from its own place in the input, within what was read; each place begins behind the end of the one before. |
| `Tokens.TemplateOrdered` | internal/codegen/namerefs.go:157-189 | The same for a template's tokens. |
| `Tokens.CodeBalanced` | internal/codegen/namerefs.go:122-155 | When an interpolation ends at its closing brace, its tokens with those of all nested templates never close more braces than were open, and close all of them. |
| `Tokens.TemplateBalanced` | internal/codegen/namerefs.go:157-189 | A template's tokens are balanced in every case; an unterminated one gives a single token and none from inside. |
| `Tokens.OpenLeavesSpace` | internal/codegen/namerefs.go:122-155 | Reading that does not stop at a closing brace leaves nothing but white space. |
| `Tokens.OpenReachesEnd` | internal/codegen/namerefs.go:157-189 | An unterminated template runs to the end of the input. |
| `TokenGrammar.Characters` | internal/codegen/namerefs.go:64-66 | The letters, digits, signs and blanks of the pattern, by code point. |
| `TokenGrammar.TokenExactly` | internal/codegen/namerefs.go:64-66 | What the pattern matches at a place is exactly the token there: a line comment up to the line break, a block comment up to its first end, text in single or double quotes up to the first such quote that is not escaped, a whole name, an arrow, or else one character. |
| `TokenGrammar.CommentExactly` | internal/codegen/namerefs.go:135-137 | A token that opens like a comment is one. |
| `TokenPlaces.SpotsExactly` | internal/codegen/namerefs.go:122-155 | The tokens of code are exactly those that stand where reading comes, going over blanks, whole tokens and whole templates; in an interpolation up to its closing brace. |
| `TokenPlaces.ClosesExactly` | internal/codegen/namerefs.go:138-147 | An interpolation ends exactly at the closing brace that reading comes to with no brace open. |
| `TokenPlaces.ReachSplits` | internal/codegen/namerefs.go:122-155 | The tokens are those before any place reading comes to and those behind it. |
| `TokenPlaces.TemplateText` | internal/codegen/namerefs.go:157-189 | The text of a template runs to the first backtick or interpolation that is not escaped. |
| `TokenPlaces.StaticTemplate` | internal/codegen/namerefs.go:157-172 | A template without interpolations is one token, its whole text. |
| `Literals.QuoteEscapes` | internal/codegen/names.go:76-81 | The three successive replacements amount to escaping character by character. |
| `Literals.RefLiteral` | internal/codegen/namerefs.go:191-257 | The decoder's loop accepts exactly the tokens the literal grammar gives a value, and returns that value. |
| `Literals.QuoteReads` | internal/codegen/names.go:76-81 | Decoding a printed literal gives the text back, for every text. |
| `Literals.QuoteIsToken` | internal/codegen/namerefs.go:66-66 | A printed literal followed by any text is matched as one whole token. |
| `Literals.QuoteFirst` | internal/codegen/namerefs.go:122-155 | The tokenizer gives the printed literal as its first token and goes on behind it. |
| `Literals.LetterReads` | internal/codegen/namerefs.go:203-228 | An escaped letter stands for the control character it names, any other character for itself. |
| `Literals.BreakReads` | internal/codegen/namerefs.go:209-214 | An escaped line break, of any kind, stands for nothing. |
| `Literals.DigitsRead` | internal/codegen/namerefs.go:229-252 | Two hexadecimal digits behind `x`, or four behind `u`, give the character of that number; a surrogate gives the replacement character. |
| `Literals.BracesRead` | internal/codegen/namerefs.go:229-252 | A number in braces behind `u` gives its character, and is refused if it is none or too large. |
| `NameRefs.FrontendTokens` | internal/codegen/namerefs.go:122-155 | The loop that keeps `end`, `line` and `depth` gives the tokens of the grammar, each with the start line plus the newlines before its place; which tokens those are is `TokenGrammar.TokenExactly` and `TokenPlaces.SpotsExactly`. |
| `NameRefs.TemplateTokens` | internal/codegen/namerefs.go:157-189 | The same for templates, through interpolations, escapes and line breaks. |
| `NameRefs.FindRef` | internal/codegen/namerefs.go:82-116 | One helper call: past its type arguments to a literal first argument, or nothing. |
| `NameRefs.TypesEnd` | internal/codegen/namerefs.go:89-104 | The first place behind the helper where the angle brackets are even, or the end of the tokens. |
| `NameRefs.ScanNameRefs` | internal/codegen/namerefs.go:73-118 | All references in a source text, in order, with their lines; which those are is `SourceRefs.SourceRefsExactly`. |
| `NameRefs.CallFound` | internal/codegen/namerefs.go:73-118 | In a list of tokens, a helper called with a printed literal is found under exactly the printed name, on its own line. |
| `NameRefs.NewlinesCount` | internal/codegen/namerefs.go:132-151 | A line number counts the line breaks before the place. |
| `SourceRefs.RefExactly` | internal/codegen/namerefs.go:82-116 | A token is a reference exactly if it is `permissionRef`, `resourceRef` or `actionRef`, and behind type arguments with even angle brackets, if any, come a parenthesis, a literal and a closing parenthesis or comma. |
| `SourceRefs.SourceRefsExactly` | internal/codegen/namerefs.go:73-118 | The references of a source are exactly those calls among its tokens, under the literal's text and on the helper's line. |
| `SourceRefs.SourceCallFound` | internal/codegen/namerefs.go:73-155 | In source text: wherever reading comes to a helper called with a literal in either kind of quotes, the reference is found under the literal's text, on the line of the call. |
| `SourceRefs.PlainQuoted` | internal/codegen/namerefs.go:64-66 | A name in single or double quotes, without such quotes and backslashes, is one token and reads as the name. |
| `SourceRefs.PrintedQuoted` | internal/codegen/names.go:76-81 | So is every printed literal, whatever the name. |
| `SourceRefs.InsideSilent` | internal/codegen/namerefs.go:64-66 | Helper text inside a string or a comment makes no reference. |
| `SourceRefs.AloneSilent` | internal/codegen/namerefs.go:64-66 | A source that is one string or one comment makes none at all. |
| `EventStream.EventFrames` | internal/engine/dispatch_sse.go:17-51 | Accepts exactly the acceptable batches; then the frames are the batch's and the cursor the last ID; a batch refused for an event leaves the cursor behind the events before the first such one, and any other refusal leaves it alone. What the frames say is `EventStream.ReadFrames`. |
| `EventStream.AcceptedExactly` | internal/engine/dispatch_sse.go:17-43 | A batch is accepted exactly if it has both members, at most 100 events, and each has data of at most 65536 bytes and an ID without carriage return, line feed or NUL. |
| `EventStream.SizeOfBytes` | internal/engine/dispatch_sse.go:41-43 | The size of data is the number of its bytes by section 3 of RFC 3629. |
| `EventStream.CompactPrintable` | internal/engine/dispatch_sse.go:32-47 | Event data without white space has no control characters. |
| `EventStream.EncodedOneLine` | internal/engine/dispatch_sse.go:32-47 | Event data fits one line of a frame. |
| `EventStream.EncodedShortest` | internal/engine/dispatch_sse.go:37-40 | No text that says what an event's data says is shorter than what is sent. |
| `EventStream.MessagesTell` | internal/engine/dispatch_sse.go:32-48 | Each message of a batch carries JSON that says, word by word, what its event's data says, and the ID of the last event up to it that has one. |
| `EventStream.ReadFrame` | internal/engine/dispatch_sse.go:32-47 | A reader by section 9.2.6 of WHATWG HTML dispatches one message per frame, with the event's data, and keeps its ID where the event has none. |
| `EventStream.ReadFrames` | internal/engine/dispatch_sse.go:17-51 | Reading a batch's frames yields one message for each event, in order; the data of each parses to a value that says, word by word, what the event's data says, with the ID in force; and the last event ID ends equal to the returned cursor. |
| `EventStream.ReadOpening` | internal/engine/sse/sse.go:153-155 | The retry line dispatches nothing and leaves the reader's ID alone. |
| `PollState.SsePollState.Accept` | internal/engine/dispatch_sse.go:139-167 | The new cursor and failure count and the outcome, for each kind of response. |
| `PollState.StepInStep` | internal/engine/dispatch_sse.go:139-167 | One poll, ping or end keeps cursor and client together. |
| `PollState.ClientInStep` | internal/engine/dispatch_sse.go:139-167 | Over any sequence of polls and pings, the server's cursor is the last event ID of a client that read everything sent. |
| `PollState.TwinsRun` | internal/engine/dispatch_sse.go:139-167 | Two streams that differ in the cursor they start from send and fail alike; their cursors meet at the first event with an ID. |
| `PollState.ReconnectKeepsCursor` | internal/engine/dispatch_sse.go:139-167 | Over any run, the ID of a reader that starts afresh is the server's cursor exactly if the cursor was empty or some event accepted so far had an ID. |
| `PollState.StepDelivers` | internal/engine/dispatch_sse.go:139-167 | A step adds exactly the accepted batch's events, in order, to what the client has seen; any other step adds none. |
| `PollState.RunDelivers` | internal/engine/dispatch_sse.go:139-167 | Over any run, a client that reads everything sent has seen exactly the accepted events, once each and in order, each with data that says what the event's data says, and then the end if a batch announced it. |
| `PollState.OpenCountsFailures` | internal/engine/dispatch_sse.go:139-167 | While the stream is open, the count is the number of failures in a row, and below three. |
| `PollState.FailedTwiceCounts` | internal/engine/dispatch_sse.go:139-167 | Two or more failures in a row are counted exactly if the last two polls failed. |
| `PollState.EndsAtThird` | internal/engine/dispatch_sse.go:139-167 | By status: 400 to 499 ends the stream with the state unchanged; 200 to 299 with an acceptable batch resets the count and ends it only if the batch says so; anything else ends it exactly if the last two polls failed too, and sends nothing. |
| `ViewTree.SortStable` | internal/engine/view_overrides_schema.go:212-232 | The comparison alone, in a stable sort, orders ties by place. |
| `ViewTree.SortedEntries` | internal/engine/view_overrides_schema.go:199-232 | The sorted entries are the collection's own, each once. |
| `ViewTree.ArrangedMoves` | internal/engine/view_overrides_schema.go:199-240 | A collection is moved by a permutation, in the order of explicit order or original place, explicit first on ties, and not at all if nothing has an order. |
| `ViewTree.UnorderedKeep` | internal/engine/view_overrides_schema.go:199-240 | Items without an order keep their relative order, whatever moves around them. |
| `ViewTree.OrderedKeeps` | internal/engine/view_overrides_schema.go:199-240 | Reordering keeps the multiset of elements of the whole tree. |
| `ViewTree.OrderedDeep` | internal/engine/view_overrides_schema.go:199-240 | The law of one collection holds in every collection at every depth. |
| `ViewTree.OneOrder` | internal/engine/view_overrides_schema.go:199-240 | With a single explicit order in a collection, its item takes the place it asks for, before whatever stood there, and no other item moves past another. |
| `ViewTree.OrderCollection` | internal/engine/view_overrides_schema.go:199-240 | The loop over one collection gives the arranged collection of reordered items. |
| `ViewTree.WriteBack` | internal/engine/view_overrides_schema.go:232-240 | Writing back over the old items leaves the sorted ones. |
| `ViewTree.OrderViewElements` | internal/engine/view_overrides_schema.go:199-240 | The recursive reordering gives the tree those laws are about. |
| `ViewOverrides.ReplaceViewOverride` | internal/engine/dispatch_view_overrides.go:130-138 | The row list says what it said, with the candidate's value under its key, and keys stay unique. |
| `ViewOverrides.OverridesForView` | internal/engine/view_overrides_schema.go:53-69 | The patches read off the rows are those of the table's contents, and none is empty. |
| `ViewOverrides.AcceptsExactly` | internal/engine/dispatch_view_overrides.go:33-59 | A property takes exactly the values of its form: texts, flags, and orders that are integers from zero. |
| `ViewOverrides.ValidateViewOverrideState` | internal/engine/view_overrides_schema.go:255-294 | Passes exactly if no occurrence of the target, in any view of the name, is hidden and required. |
| `ViewOverrides.UntouchedSafe` | internal/engine/view_overrides_schema.go:255-294 | Checking the written element alone is enough: all others stay as safe as they were. |
| `ViewOverrides.CreateKeepsSafe` | internal/engine/dispatch_view_overrides.go:72-128 | An accepted create, with or without its companion, keeps every view safe. |
| `ViewOverrides.DeleteKeepsSafe` | internal/engine/dispatch_view_overrides.go:178-209 | An accepted delete keeps every view safe. |
| `ViewOverrides.HistorySafe` | internal/engine/dispatch_view_overrides.go:72-209 | From a consistent schema, no history of creates and deletes makes any view unsafe. |
| `ServedViews.OverrideStore.Load` | internal/engine/view_overrides_schema.go:25-48 | The rows a write sees say exactly what the table says. |
| `ServedViews.OverrideStore.Upsert` | internal/engine/dispatch_view_overrides.go:160-176 | One key gets the value; an existing row keeps its identifier; identifiers stay unique. |
| `ServedViews.OverrideStore.Create` | internal/engine/dispatch_view_overrides.go:72-128 | What is committed is exactly what was checked, both properties or neither; a refusal leaves the table alone. |
| `ServedViews.OverrideStore.Delete` | internal/engine/dispatch_view_overrides.go:178-209 | The row of the identifier goes if what remains passes the check; an unknown identifier is reported. |
| `ServedViews.Without` | internal/engine/dispatch_view_overrides.go:186-196 | The row with the identifier, and all others in order. |
| `ServedViews.PatchElements` | internal/engine/view_overrides_schema.go:93-98 | The patching walk gives the patched tree, and reports a match exactly if some element took a patch. |
| `ServedViews.PatchCollection` | internal/engine/view_overrides_schema.go:167-186 | The same for one collection. |
| `ServedViews.SchemaWithViewOverrides` | internal/engine/view_overrides_schema.go:71-129 | Every view as served: as declared if no override with a proper value names an element of it; otherwise each element has the overridden properties and its own others, collections hold what they held, and every collection at every depth is in order. |
| `ServedViews.ServedExactly` | internal/engine/view_overrides_schema.go:71-129 | That description of the served view, for every table and view. |
| `ServedViews.NoteMoves` | internal/engine/view_overrides_schema.go:199-232 | A form of phone, email and note whose note is given order 0 is served as note, phone, email; with order 1 as phone, note, email; with any other as declared. |
| `ServedViews.TouchedExactly` | internal/engine/view_overrides_schema.go:93-101 | The walk finds a match exactly if an override with a proper value names an element at some depth. |
| `ServedViews.PatchMeetsWalk` | internal/engine/view_overrides_schema.go:93-98 | Patching meets each element of the walk exactly once. |
| `ServedViews.UnmatchedSame` | internal/engine/view_overrides_schema.go:99-101 | Without a match, patching would change nothing. |
| `ServedViews.ServedConserves` | internal/engine/view_overrides_schema.go:71-129 | A served view holds exactly the declared elements, each with its overrides, however it is reordered. |
| `ServedViews.ServedSafe` | internal/engine/view_overrides_schema.go:71-129 | In a safe table, every served element is a declared one, and whichever declared elements it may be, none is both hidden and effectively required for its model field. |
| `ServedViews.HistoryServed` | internal/engine/dispatch_view_overrides.go:72-209 | That holds of the views served after any history of writes. |
| `ServedNames.ServedNameIs` | internal/engine/view_overrides_schema.go:156-161 | The name of an element in the served view: its own, or the label it was given if it has no other. |
| `ServedNames.PatchedWalk` | internal/engine/view_overrides_schema.go:167-186 | Walking the patched view meets the declared elements with the resources their served names lead to. |
| `ServedNames.OrderedWalk` | internal/engine/view_overrides_schema.go:199-240 | Reordering a tree keeps what a walk meets, resources included, up to order. |
| `ServedNames.ServedWalk` | internal/engine/view_overrides_schema.go:71-129 | What a walk of the served view meets: each declared element, patched, under the resource its served name leads to. |
| `ServedNames.ServedViewSafeIs` | internal/engine/view_overrides_schema.go:255-294 | Safety of the served view is a matter of the declared elements, the overrides and the labels given. |
| `ServedNames.ServedNamesExactly` | internal/engine/view_overrides_schema.go:255-294 | Read by the names and resources of the served view, a safe table is safe exactly if no element that a given label renames or puts under another resource conflicts there. |
| `ServedNames.HistoryServedExactly` | internal/engine/dispatch_view_overrides.go:72-209 | That condition is exact after every history of writes. |
| `ServedNames.UnlabelledServedSafe` | internal/engine/view_overrides_schema.go:255-294 | Without labels given to label-only elements, a safe view is safe as served. |
| `ServedNames.RelabelledName` | internal/engine/dispatch_view_overrides.go:72-128 | Two accepted writes after which the served view hides an element with a required field's name. |
| `ServedNames.RelabelledList` | internal/engine/view_overrides_schema.go:178-183 | One accepted write after which a hidden element of a sub-list is a required field of the related model. |
| `TypeShapes.RefsCovered` | internal/codegen/render.go:431-479 | A rendered type mentions only models and the named shapes inside it. |
| `TypeShapes.ShapesClosed` | internal/codegen/render.go:484-505 | The shapes of a type include the shapes of each other's fields. |
| `TypeShapes.AllObliged` | internal/codegen/render.go:480-487 | The named objects in a type are those it obliges and those inside models' objects. |
| `TypeClosure.Generator.Claim` | internal/codegen/render.go:250-259 | Succeeds exactly for a free identifier, and keeps the registry coherent. |
| `TypeClosure.Generator.RenderType` | internal/codegen/render.go:431-479 | Succeeds exactly if the type's shapes and those registered so far share no name that is taken or shaped differently; then precisely its shapes are added and the registry is closed. What the rendered type admits is `TypeMeaning.RenderedAgrees`. |
| `TypeClosure.Generator.RegisterBodyType` | internal/codegen/render.go:484-505 | The same for one named object, although its fields are walked while it is already registered. |
| `TypeClosure.Generator.ObjectBody` | internal/codegen/render.go:509-539 | The same for a list of fields. |
| `TypeClosure.PriorShape` | internal/codegen/render.go:490-495 | A repeated name is accepted exactly if the shape is the registered one, and then brings nothing new. |
| `ClientPlan.GoodPrefix` | internal/codegen/render.go:93-155 | Demands that cannot be met cannot be met with more behind them. |
| `ClientPlan.StandsForOne` | internal/codegen/render.go:892-901 | An action name stands for one route. |
| `ClientRun.RenderModelTypes` | internal/codegen/render.go:339-419 | A model's types are declared exactly if its read keys and names are free. |
| `ClientRun.ReadKeysFitted` | internal/codegen/render.go:354-378 | Passes exactly if every expanded field has a response key no field uses. |
| `ClientRun.PlanCrud` | internal/codegen/render.go:554-629 | A model's functions and hooks are planned exactly if all their names are free. |
| `ClientRun.PlanAction` | internal/codegen/render.go:645-700 | An action is planned exactly if its types and names can be had; its signature shows both types. |
| `ClientRun.PlanRaw` | internal/codegen/render.go:725-874 | The same for a raw route, whose method must be supported and whose parameters must differ. |
| `ClientRun.PlanRoutes` | internal/codegen/render.go:119-130 | All routes, or none if any one fails. |
| `ClientRun.RenderRegistries` | internal/codegen/render.go:902-927 | The action registry, with both types of each action. |
| `ClientRun.DeclareBodies` | internal/codegen/render.go:148-157 | The declarations pass cannot fail and registers nothing; it declares each shape once, in the order of names. |
| `ClientLaws.CheckActionNames` | internal/codegen/render.go:226-239 | Comparing neighbours in the sorted list succeeds exactly if no two routes share an action name across models. |
| `ClientLaws.RoutesOf` | internal/codegen/render.go:183-219 | Exactly the declared routes that get a function, each as often as declared, sorted: actions by model and name, then raw routes by path and method. |
| `ClientLaws.ActionRoutes` | internal/codegen/render.go:892-902 | Each action name's first route that is no workflow transition, or else its last transition, in the order of names. |
| `ClientLaws.ActionsOnce` | internal/codegen/render.go:892-902 | The routes leave no choice about that list. |
| `ClientLaws.Generate` | internal/codegen/render.go:93-179 | Generation succeeds exactly if the demands of all passes can be met together, in whatever order they come; then it says what each route asks and declares each shape. What its types admit is `TypeMeaning.ClientMeans`. |
| `ClientLaws.ClientClosed` | internal/codegen/render.go:93-179 | Every type named in a function, an action or an interface is declared in the file. |
| `ClientLaws.NamesDistinct` | internal/codegen/render.go:250-259 | No two declarations share a name, none takes an import's, and every model type is declared. |
| `ClientLaws.ImportsReserved` | internal/codegen/render.go:77-83 | The reserved names are exactly what a generated file may import. |
| `ClientLaws.NamesExactly` | internal/codegen/render.go:339-629 | The names a client declares besides body types: its API object's, for each model its types and the functions and hooks of the enabled operations, and each route's function and hook. |
| `ClientLaws.ShapeDeclared` | internal/codegen/render.go:148-157 | Every registered shape is declared under its name with exactly its members. |
| `ClientLaws.RegisteredExactly` | internal/codegen/render.go:480-487 | Every named object in every rendered type is registered with its shape exactly if those inside models' objects are also met outside one, in any rendered type. |
| `ClientLaws.ModelHides` | internal/codegen/render.go:480-487 | A module for which a client is generated, with a type inside a model's object that is not registered. |
| `ClientLaws.CrudRefsDeclared` | internal/codegen/render.go:554-629 | The types a model's functions and registry entry name are declared. |
| `TypeMeaning.RenderedAgrees` | internal/codegen/render.go:431-479 | By the JSON values they admit, with names read through the declared interfaces: a rendered type admits nothing that is not described, and everything that is, unless a null is lost in it. |
| `TypeMeaning.RenderedExactly` | internal/codegen/render.go:431-479 | For descriptions whose fields have names of their own, a rendered type admits exactly the described values exactly if no object called `unknown` that may be null occurs in it outside a model's object. |
| `TypeMeaning.NullLost` | internal/codegen/render.go:331-336 | A module for which a client is generated whose function refuses a null its route may return. |
| `TypeMeaning.ClientMeans` | internal/codegen/render.go:93-179 | Every function, action and interface of a generated client has the name its route or type gives, takes a body and a record ID exactly if it should, returns pages exactly for a list, and its types admit what is described. |
| `DevModules.DevResolver.Visit` | internal/cli/module/dev_modules.go:116-138 | A visit selects the module after everything it depends on, or fails with a chain that explains it. |
| `DevModules.SelectSources` | internal/cli/module/dev_modules.go:113-145 | Succeeds exactly if nothing reachable is missing or on a cycle; then lists each reachable module once, dependencies first; otherwise the chain is a real path from a root. |
| `DevModules.ExplainedFails` | internal/cli/module/dev_modules.go:118-127 | A reported chain is proof that no selection exists. |
| `DevModules.PathGoesBack` | internal/cli/module/dev_modules.go:113-145 | In a list with dependencies first, every dependency path leads backwards. |
| `DevModules.ListedResolves` | internal/cli/module/dev_modules.go:113-145 | A list of the roots with dependencies first holds everything reachable, and no cycle. |
| `ActivityTypes.CreatedKeeps` | internal/engine/activitytype/activitytype.go:273-318 | An accepted create keeps the invariant: at most 50 types, distinct positions, and an active one. |
| `ActivityTypes.UpdatedKeeps` | internal/engine/activitytype/activitytype.go:336-405 | So does an accepted update, also one that archives. |
| `ActivityTypes.DeletedKeeps` | internal/engine/activitytype/activitytype.go:446-471 | So does an accepted delete. |
| `ActivityTypes.SeededKeeps` | internal/engine/activitytype/activitytype.go:157-180 | So does seeding, which leaves the table non-empty. |
| `ActivityTypes.ReorderedKeeps` | internal/engine/activitytype/activitytype.go:407-444 | So does a reorder, although rows already in place are skipped. |
| `ActivityTypes.HistoryKeeps` | internal/engine/activitytype/activitytype.go:157-471 | Every history of seeds, creates, updates, reorders and deletes keeps the invariant. |
| `ActivityTypes.SeedOnce` | internal/engine/activitytype/activitytype.go:157-180 | A table that has a type always has one, so a later seed changes nothing. |
| `ActivityTypes.CreatedColumns` | internal/engine/activitytype/activitytype.go:273-318 | A new row has the columns asked for, stands behind every other and is active; no other row changes; a taken key and a full table of 50 are refused, in that order. |
| `ActivityTypes.SeededColumns` | internal/engine/activitytype/activitytype.go:157-180 | Seeding an empty table gives the four built-in types in order, active, each with its label and icon. |
| `ActivityTypes.UpdatedColumns` | internal/engine/activitytype/activitytype.go:336-391 | An update sets the columns it names and no other; clearing wins over a new number of days, and archiving again keeps the first time. |
| `ActivityTypes.ReorderedColumns` | internal/engine/activitytype/activitytype.go:407-444 | A reordered row stands at its place in the list, with a new time exactly if it moved. |
| `ActivityTypeStore.ListingUnique` | internal/engine/activitytype/activitytype.go:191-222 | There is one list of the keys by position. |
| `ActivityTypeStore.CreateAppends` | internal/engine/activitytype/activitytype.go:273-318 | A new type goes to the end of the list. |
| `ActivityTypeStore.UpdateKeepsOrder` | internal/engine/activitytype/activitytype.go:336-391 | An update leaves the list as it was. |
| `ActivityTypeStore.DeleteRemoves` | internal/engine/activitytype/activitytype.go:446-471 | A delete takes one key out of the list and moves no other. |
| `ActivityTypeStore.ReorderLists` | internal/engine/activitytype/activitytype.go:407-444 | After a reorder, listing gives exactly the keys asked for. |
| `ActivityTypeStore.SeedLists` | internal/engine/activitytype/activitytype.go:157-180 | A fresh seed lists the built-in types in their order. |
| `ActivityTypeStore.StepLists` | internal/engine/activitytype/activitytype.go:157-471 | Every write does to the list of keys what it would do to a plain list, and a refused one nothing. |
| `ActivityTypeStore.RunLists` | internal/engine/activitytype/activitytype.go:157-471 | The stored positions refine a plain list: over every history, listing the table gives the list's own history. |
| `ActivityTypeStore.Store.List` | internal/engine/activitytype/activitytype.go:191-222 | All keys by position. |
| `ActivityTypeStore.Store.GreatestPosition` | internal/engine/activitytype/activitytype.go:273-318 | The greatest position in the table. |
| `ActivityTypeStore.Store.Create` | internal/engine/activitytype/activitytype.go:273-318 | The whole new table, or the error and the old one. |
| `ActivityTypeStore.Store.Update` | internal/engine/activitytype/activitytype.go:336-405 | The whole new table, or the error and the old one. |
| `ActivityTypeStore.Store.Delete` | internal/engine/activitytype/activitytype.go:446-471 | The whole new table, or the error and the old one. |
| `ActivityTypeStore.Store.Seed` | internal/engine/activitytype/activitytype.go:157-180 | The built-in rows in an empty table, and nothing in any other. |
| `ActivityTypeStore.Store.Reorder` | internal/engine/activitytype/activitytype.go:407-444 | Succeeds exactly for a permutation of the current keys; sorting both lists and comparing decides that. |
| `ActivityTypeStore.Store.Place` | internal/engine/activitytype/activitytype.go:432-441 | The row-by-row updates, skipping rows already in place, give the reordered table. |
| `Markers.SortMarkers` | internal/module/generate_fields.go:812-813 | A sorted permutation in an array of its own. |
| `Markers.AgreeMeansNone` | internal/module/generate_fields.go:816-824 | Agreement of neighbours in the sorted list means no two markers collide. |
| `Markers.FirstsSame` | internal/module/generate_fields.go:815-825 | The kept markers are the same set, strictly ascending. |
| `Markers.DedupeCrossModuleMarkers` | internal/module/generate_fields.go:811-826 | Fails exactly if two markers share a Go name but not a resource, naming two that do; otherwise gives the same set, strictly ascending, although it writes into the slice it reads. |
| `ReminderClock.CutoffSafe` | internal/engine/dispatch_scheduled_activity_notify.go:211-213 | Nothing due its reminder in a zone less than a day ahead of UTC is behind tomorrow's UTC date. |
| `ReminderClock.CutoffExactly` | internal/engine/dispatch_scheduled_activity_notify.go:284-290 | For a fixed offset the cutoff hides nothing exactly if the offset is at most 32 hours. |
| `ReminderClock.DueLocally` | internal/engine/dispatch_scheduled_activity_notify.go:281-290 | A reminder is due exactly if the local date is past the due date, or is the due date from eight o'clock on. |
| `ReminderClock.DueInTokyo` | internal/engine/dispatch_scheduled_activity_notify_test.go:166-185 | Nine hours ahead of UTC that is from 23:00 UTC of the day before. |
| `Reminders.ListReminderCandidates` | internal/engine/scheduledactivity/scheduledactivity.go:264-296 | The first candidates behind the cursor by due date and identifier; a short page holds all of them. |
| `Reminders.VisitPage` | internal/engine/dispatch_scheduled_activity_notify.go:220-232 | Exactly the due candidates of a page are attempted, in order. |
| `Reminders.RemindDueActivities` | internal/engine/dispatch_scheduled_activity_notify.go:203-238 | Ends, visits keys in strictly ascending order over tables that change between pages, and has visited every candidate that stayed in the table until the run came to it. |
| `Reminders.DueAttemptedOnce` | internal/engine/dispatch_scheduled_activity_notify.go:203-238 | A due activity that stays as it is until then is attempted exactly once, in every zone. |
| `ReminderProtocol.StepKeeps` | internal/engine/scheduledactivity/scheduledactivity.go:203-400 | Every step of every run and every writer keeps the invariant. |
| `ReminderProtocol.FinishKeeps` | internal/engine/scheduledactivity/scheduledactivity.go:306-336 | So does ending a reminding transaction, whatever its callback found. |
| `ReminderProtocol.FinishExactly` | internal/engine/dispatch_scheduled_activity_notify.go:247-279 | For an activity still assigned as listed and due: a readable record is announced and marked, an unreadable one or an unknown user marked only, a failure changes nothing; in every other case nothing is announced or marked. |
| `ReminderProtocol.AtMostOnce` | internal/engine/dispatch_scheduled_activity_notify.go:240-279 | Under any interleaving, at most one committed notice per activity and unreminded period. |
| `ReminderProtocol.EveryNoticeJustified` | internal/engine/dispatch_scheduled_activity_notify.go:247-279 | Every notice is committed by one step, the end of its own reminding transaction, and when that step is taken its activity is open, unreminded, due and assigned to whom it goes. |
| `ReminderProtocol.ReassignedAgain` | internal/engine/scheduledactivity/scheduledactivity.go:203-245 | A reassignment after a reminder lets the new assignee be reminded in turn. |

## Left out

- Manifest error messages, and the difference between reasons a value is refused: one error stands for each kind.
- ManifestRewrite.RewriteKeyFails: an indent that contains a carriage return makes the source's formatter panic; the model refuses the value.
- Invalid UTF-8 and byte offsets: text is a sequence of Unicode characters, so sizes limited in bytes are computed by encoding.
- EventStream.EventFrames: event data is compacted with its string escapes as they were; the source's encoder may spell the same strings with other escapes.
- TypeMeaning.Fits: `{}` stands for objects alone, and of several members with one name all must fit.
- HTTP status handling, timeouts, headers and the connection manager around event streams.
- The regular expression engine: the token pattern is written out as a function, alternative by alternative.
- File walking in the name-reference scan, and matching the found names against the catalogue.
- In-place update of nested view maps: views are values, so aliasing between a view and its copy is not modelled; the source decodes a fresh copy before it patches.
- Encoding and decoding of views as JSON, and the schema hash of a patched schema.
- Schema reloads while an override is written, authentication, and the user and time columns of override rows.
- Reordering a view a second time: it is not idempotent, because elements without an order sort by their current place.
- Layout of the generated TypeScript, its comments, imports and test fixtures; a rendered type is a tree without layout.
- Derivation of identifiers (`pascal`, `camel`, pluralising, path segments) and upper-casing of methods: derived names are part of the input.
- Path and query parameters in the signatures of raw routes, beyond that their names can be had.
- The checks of view references that run before generation.
- `reflect.DeepEqual` tells a nil list of fields from an empty one; the model does not.
- Reading module sources from disk and building the index of modules; the index is the input.
- Translated labels (`Resolve`, `seedLabel`) and usage counts of activity types: labels and counts are parameters.
- Identifiers the database gives to new rows: the model takes fresh ones as parameters, and never reuses them.
- SQL text and the database: a locked transaction is one step, its rows a map.
- Formatting and parsing of dates: a date is a day number, and a zone gives the offset it has at 08:00 of a day.
- What a notification says (`Overdue`, record names) and its announcement after the commit.
- Engine start-up, middleware, WebSocket dispatch, WASM, the gateway and the command line around these parts.
