# Match & Replace (request) tab: a Dafny model

This project models the core of a Burp Suite extension tab that rewrites an
HTTP request in place (`matchreplace.py`). The user picks a match string, a
replacement, "Regex" and "Ignore case" flags, and a scope: the editor
selection, the body, the header block, the URL path or the whole request.
The tab rewrites only that region. It reports where the new text sits, and
keeps a bounded undo history of the messages it replaced.

The request is handled as text framed like section 2.1 of RFC 9112: a
start-line, CRLF-terminated field lines, an empty line, then the body. The
code checks nothing beyond that framing. It splits at the first
`"\r\n\r\n"` and then at the first `"\r\n"`. It cuts the start-line
(`method SP request-target SP HTTP-version`, section 3 of RFC 9112) at single
spaces.

Files:

- `text.dfy` (module `Text`): the Python string operations the code uses.
  These are `in`/`find`, `split(sep)`, `sep.join`, case-sensitive
  `str.replace` and clamped slicing, with their laws. Joining the pieces of
  a split gives the string back. `str.replace` is leftmost and
  non-overlapping. Replacing an absent pattern changes nothing.
- `request.dfy` (module `Request`): the pure rewriters `split_request`,
  `replace_in_selection`, `replace_in_body`, `replace_in_headers`,
  `replace_in_url`, `perform_replace`, and the scope dispatch of
  `do_replace`. For each one the model proves what is kept, where the region
  is, and which splice identity holds.
- `history.dfy` (module `History`): the undo stack as values. It covers
  `push_undo` with top de-duplication and eviction beyond `MAX_UNDO = 10`, the
  undo step of `do_undo`, and the push-then-retract of `do_replace`. It also
  proves that undos walk back through replaces.
- `session.dfy` (module `Session`): the tab as a class. Its fields are the
  undo stack, the current message and the modified flag. Its methods are
  `setMessage`, `getMessage`, `push_undo`, `do_undo`, `clear_history`,
  `do_replace` and its exception handler. Each is proved against the
  functions of `History` and `Request`.

Foreign collaborators are parameters:

- The regular-expression engine is a datatype of two function values.
  `regexSub` stands for `re.sub` and gives None when it raises `re.error`:
  the pattern does not compile, or the replacement template is invalid.
  `foldSub` stands for the case-insensitive literal substitution (the
  default mode, line 69). It is taken to succeed, although its replacement
  is read as a template too (see "Left out").
- Whether `helpers.analyzeRequest` succeeds is a boolean.
- What the editor's `getMessage()` returns is an `Option<string>`.
- The selection bounds are an `Option<(nat, nat)>`.
- `bytesToString`/`stringToBytes` are the identity: a message is a `string`.
  Snapshots compare by value.

Notes on the code's behaviour, which the model follows:

- Selection bounds are not checked against the message length. Python's
  slicing clamps them. The "Selection" scope only rejects a missing or empty
  selection. The fallback branch for an unlisted scope only rejects a
  missing one.
- An invalid regular expression in `perform_replace` is not an error for
  `do_replace`. The text is committed unchanged in the region, the pushed
  undo entry stays, and the tab is marked modified. In the body and headers
  scopes a message without a blank line still gains one.
- The URL scope does not call `perform_replace`. It repeats the same three
  modes itself, and its `re.sub` at line 237 has no `except re.error`. A
  regular expression that does not compile therefore raises, the catch-all
  of `replace_in_url` returns the original message with no region, and no
  dialog is shown.
- The start-line is cut at every single space, so consecutive spaces give
  empty tokens. The version is everything after the second space.

## Model

| member | source | states |
|---|---|---|
| `Text.IndexOf` | matchreplace.py:175-176 | the index found is an occurrence and no earlier index is one; None means the pattern occurs nowhere |
| `Text.Contains` | matchreplace.py:175 | Python's `in`; no contract of its own, it holds exactly when `IndexOf` finds an occurrence, and `CountPositive` ties it to `str.replace` |
| `Text.Split` | matchreplace.py:197-198 | `split` never returns an empty list, so the `if not lines` guards (lines 198 and 223) cannot fire |
| `Text.Join` | matchreplace.py:202 | Python's `sep.join` (also lines 232 and 248); no contract of its own, its law is `JoinSplit` |
| `Text.JoinSplit` | matchreplace.py:197-202 | joining the pieces of a split with the same separator gives back the original string |
| `Text.SplitFirst` | matchreplace.py:176-177 | the first piece of a split holds no separator; without a separator the split is the string alone; otherwise the string is first piece, separator, rest joined back |
| `Text.ReplaceAllLength` | matchreplace.py:273 | each occurrence `str.replace` rewrites (leftmost first, non-overlapping, counted by `Count`) changes the length by len(replacement) - len(pattern), and nothing else changes it |
| `Text.CountPositive` | matchreplace.py:273 | there is something to rewrite exactly when the pattern occurs |
| `Text.ReplaceAllAbsent` | matchreplace.py:273 | replacing a pattern that does not occur leaves the text unchanged |
| `Text.ReplaceAllSelf` | matchreplace.py:273 | replacing a pattern by itself leaves the text unchanged |
| `Text.ReplaceAll` | matchreplace.py:273 | `str.replace`, leftmost and non-overlapping; no contract of its own, its laws are `ReplaceAllLength`, `CountPositive`, `ReplaceAllAbsent`, `ReplaceAllSelf`, `ReplaceAllLeavesNone` and `ReplaceAllTwice` |
| `Text.ReplaceAllLeavesNone` | matchreplace.py:273 | a non-empty replacement sharing no character with the pattern leaves no occurrence of the pattern in the result |
| `Text.ReplaceAllTwice` | matchreplace.py:273 | under the same conditions a second identical replace is a no-op |
| `Text.Take` | matchreplace.py:185 | `s[:i]` is the first i characters, or all of `s` when i is past its end |
| `Text.Drop` | matchreplace.py:185 | `s[i:]` is what follows the first i characters, or empty when i is past the end |
| `Text.TakeDrop` | matchreplace.py:185 | `s[:i] + s[i:]` is `s` for every non-negative i |
| `Text.Slice` | matchreplace.py:183 | `s[i:j]` is the slice when i <= j <= len(s); with j past the end it runs to the end; it is empty when j <= i or i is past the end |
| `Request.Substitute` | matchreplace.py:258-273 | only the regular-expression mode can fail to compile; a literal case-sensitive pattern that does not occur gives the text back |
| `Request.PerformReplace` | matchreplace.py:258-273 | an invalid regular expression returns the input unchanged; in literal case-sensitive mode an absent pattern, or a replacement equal to the pattern, returns the input unchanged |
| `Request.SplitRequest` | matchreplace.py:172-179 | with a separator, head + `"\r\n\r\n"` + body is the message and the head ends at the first separator (it contains none); without one the result is (message, "") |
| `Request.FirstLine` | matchreplace.py:197-200 | `lines[0]` of a CRLF split (also lines 222-225); no contract of its own, its law is `LineSplice` |
| `Request.AfterFirstLine` | matchreplace.py:201-202 | `"\r\n".join(lines[1:])` (also line 248); no contract of its own, its law is `LineSplice` |
| `Request.LineSplice` | matchreplace.py:197-202 | the start-line holds no CRLF; a text with a CRLF is start-line + CRLF + the joined remaining lines; without a CRLF the start-line is the whole text and the rest is empty |
| `Request.HeadHasNoTrailingCRLF` | matchreplace.py:172-179 | the head of a framed message never ends in CRLF, since that CRLF would start an earlier separator |
| `Request.ReplaceInSelection` | matchreplace.py:182-185 | the region starts at the selection start; for bounds inside the message, prefix and suffix are kept, the region slices out exactly the rewritten selection, and an absent pattern leaves the message unchanged |
| `Request.ReplaceInBody` | matchreplace.py:187-193 | the new text is head + `"\r\n\r\n"` + the rewritten body; the region starts at len(head)+4 and runs to the end; a framed message keeps its head and separator; with nothing to replace, a framed message is unchanged and an unframed one gains the separator |
| `Request.StartLineOfHead` | matchreplace.py:196-200 | the start-line kept by the headers scope begins the message, holds no CRLF, and is followed by a CRLF or by the end of the message |
| `Request.ReplaceInHeaders` | matchreplace.py:195-211 | no contract of its own; its result is stated by `HeadersShape`, `StartLineOfHead`, `HeadersNoMatch` and `HeadersKept` |
| `Request.HeadersShape` | matchreplace.py:195-211 | the start-line is kept; the region starts at len(start-line)+2 and slices out the new header block; an empty block leaves no CRLF after the start-line, a non-empty one is preceded by CRLF and followed by the separator and the unchanged body |
| `Request.HeadersKept` | matchreplace.py:195-211 | whenever the matcher gives the header block back unchanged, the result is that of `HeadersNoMatch` |
| `Request.HeadersNoMatch` | matchreplace.py:195-211 | with nothing to replace in the header block, a framed message is unchanged; an unframed one gains the separator, and a lone start-line loses its trailing CRLF |
| `Request.ReplaceInUrl` | matchreplace.py:213-256 | a failing analyser or fewer than three space-separated tokens returns the original with no region; every result without a region is the original message |
| `Request.StartLineTokens` | matchreplace.py:227 | `start_line.split(" ")`; no contract of its own, its law is `StartLineShape` |
| `Request.StartLineShape` | matchreplace.py:227-232 | with at least three tokens the start-line is method SP path SP version, the version being the remaining tokens joined by spaces |
| `Request.UrlSplice` | matchreplace.py:225-253 | when the URL scope rewrites, method and version are kept, the region [len(method)+1, len(method)+1+len(new path)] slices out the new path, and the new message is the old one with the path swapped, plus a CRLF when it had none |
| `Request.UrlNoMatch` | matchreplace.py:234-249 | with nothing to replace in the path, the URL scope returns the message, plus a CRLF when it had none |
| `Request.InvalidRegexKeepsMessage` | matchreplace.py:258-266 | a regular expression that `re.sub` rejects leaves the message unchanged in every scope (`perform_replace` returns its input; the URL scope falls back at lines 254-256), given the separator the body and headers scopes rebuild and a selection inside the message |
| `Request.ReplaceInWhole` | matchreplace.py:332-336 | the region is [0, length of new text]; an absent literal pattern leaves the message unchanged |
| `Request.ReplaceInScope` | matchreplace.py:302-349 | a missing selection is rejected exactly in the selection and fallback scopes; an empty selection is rejected exactly in the selection scope; a selection rewrite's region starts at the selection start |
| `Request.NoMatchKeepsMessage` | matchreplace.py:302-349 | a literal pattern absent from the message leaves it unchanged in every scope, given the framing that scope rebuilds and a selection inside the message |
| `History.Pushed` | matchreplace.py:133-145 | `push_undo` on values; no contract of its own, stated by `PushedWellFormed`, `PushedKeepsMostRecent`, `PushedIdempotent` and `PushAllKeepsMostRecent` |
| `History.PushedWellFormed` | matchreplace.py:133-145 | push keeps the history at most 10 long with no two equal neighbours, and leaves the snapshot on top |
| `History.PushedKeepsMostRecent` | matchreplace.py:138-143 | a snapshot different from the top is kept together with the most recent entries, at most 10 in all, so the oldest is evicted first |
| `History.PushedIdempotent` | matchreplace.py:137-139 | pushing the same snapshot twice is the same as pushing it once |
| `History.PushAllAppends` | matchreplace.py:133-145 | below the bound, a run of distinct successive snapshots is appended in order |
| `History.PushAllKeepsMostRecent` | matchreplace.py:133-145 | from a well-formed history, a run of successive distinct snapshots leaves exactly the newest 10 entries of the history and the run together |
| `History.Undone` | matchreplace.py:147-163 | the undo step on values; no contract of its own, stated by `UndoneWellFormed`, `UndoneRestoresNothing`, `UndoAfterPush` and `UndoTimesWalksBack` |
| `History.UndoneRestoresNothing` | matchreplace.py:153-158 | an undo restores nothing exactly when the history is empty or holds only the shown message, and then leaves it empty |
| `History.UndoneWellFormed` | matchreplace.py:147-163 | an undo keeps the history well formed |
| `History.UndoAfterPush` | matchreplace.py:147-163 | undo right after a replace that changed the message restores the message it started from; below the bound, and when the top of the history was not already that message, it also restores the history |
| `History.UndoTimesWalksBack` | matchreplace.py:147-163 | n undos over n pushed distinct messages walk back to the first one and restore the history below them |
| `History.ReplacesThenUndosRestore` | matchreplace.py:147-163 | up to 10 changing replaces followed by as many undos restore the original message from any well-formed history; the history comes back as its newest entries that survived eviction, all of it when nothing was evicted; no snapshot may equal its neighbour, so the top of the history differs from the first replaced message |
| `History.PopIfTop` | matchreplace.py:307-308 | the guarded pop on values; no contract of its own, stated by `RetractDropsEqualTop` and `Session.ReplaceTab.PopIfTopIs` |
| `History.PushThenRetract` | matchreplace.py:295-316 | the push then guarded pop of a rejected selection; no contract of its own, stated by `RetractRestoresBelowBound`, `RetractAtBoundLosesOldest`, `RetractDropsEqualTop` and `EmptySelectionAtBoundLosesOldest` |
| `History.RetractRestoresBelowBound` | matchreplace.py:295-316 | below the bound, with a top other than the message, push-then-retract leaves the history as it was |
| `History.RetractAtBoundLosesOldest` | matchreplace.py:295-316 | at the bound, push-then-retract drops the oldest entry |
| `History.RetractDropsEqualTop` | matchreplace.py:307-308 | when the top already equals the message, push-then-retract removes that pre-existing entry |
| `History.EmptySelectionAtBoundLosesOldest` | matchreplace.py:312-316 | a full history "0".."9" and an empty selection on message "x" leave the history without "0" |
| `Session.Latest` | matchreplace.py:119-124 | what `getMessage` returns; no contract of its own, stated by `Session.ReplaceTab.GetMessage` |
| `Session.ReplaceTab.constructor` | matchreplace.py:88-94 | no message, not modified, empty history |
| `Session.ReplaceTab.SetMessage` | matchreplace.py:106-117 | a new message (or none) becomes current, the history is emptied and the modified flag cleared |
| `Session.ReplaceTab.GetMessage` | matchreplace.py:119-124 | the editor's message is adopted when present, otherwise the last one is returned |
| `Session.ReplaceTab.PushUndo` | matchreplace.py:133-145 | None is ignored; otherwise the history becomes the push of the snapshot, and stays well formed |
| `Session.ReplaceTab.PopIfTopIs` | matchreplace.py:307-308 | the top is popped exactly when it equals the message |
| `Session.ReplaceTab.DoUndo` | matchreplace.py:147-165 | an empty history changes nothing; otherwise the history becomes the undo step against the shown message, and a restored snapshot becomes current and sets modified |
| `Session.ReplaceTab.ClearHistory` | matchreplace.py:167-169 | the history is emptied |
| `Session.ReplaceTab.DoReplace` | matchreplace.py:276-354 | an empty pattern or no message changes nothing; otherwise the message is pushed, a rejected selection retracts it if still on top, and a rewrite in the chosen scope is committed and sets modified |
| `Session.ReplaceTab.ReplaceKeepingHistory` | matchreplace.py:295-316 | the corrected order: a rejected selection leaves the history exactly as it was; a committed rewrite is as in DoReplace |
| `Session.ReplaceTab.RollBack` | matchreplace.py:365-375 | the top entry, if any, is popped and shown again; the tab is marked modified |

## Findings

| source | as written | input that shows it | evidently intended | confidence | as-written member | corrected member |
|---|---|---|---|---|---|---|
| matchreplace.py:295-316 | the message is pushed before the selection is checked; a missing or empty selection then pops the top only if it equals the message | a history of ten distinct snapshots "0".."9", current message "x", scope Selection with an empty selection: the push evicts "0", the pop removes "x", and "0" is lost | the comment at line 306 gives the retraction as undoing the push, so a rejected selection should leave the history as it was | medium; not executed | `Session.ReplaceTab.DoReplace`, shown by `History.EmptySelectionAtBoundLosesOldest` | `Session.ReplaceTab.ReplaceKeepingHistory` |

## Left out

- Swing panel construction, buttons, checkboxes and the scope box (lines 25-86) are UI. The scope box's item is the `Scope` parameter, with `Unlisted` for an item that is none of the five.
- `JOptionPane` dialogs and `printError` are not modelled. The dialogs of `do_replace` and `do_undo` become outcome values. The "Invalid regular expression" dialog of `perform_replace` is not surfaced, because `do_replace` never learns of it.
- Extension registration and the forwarding methods `getTabCaption`, `getUiComponent`, `isEnabled`, `isModified` and `getSelectedData` (lines 11-21, 97-104, 126-130) are thin wrappers over the host API.
- Request.PerformReplace: for the regular-expression and case-insensitive modes it states only that an invalid pattern leaves the text unchanged. The engine's matching and Unicode case folding are not modelled.
- `helpers.analyzeRequest`, `getUrl` and `getProtocol` (lines 216-219) are represented only by whether they raise. Their results are unused.
- Restoring the editor selection with `setSelection` (lines 357-363) is UI.
- Session.ReplaceTab.DoReplace: never raises in the model. In the default "Ignore case" mode without "Regex" (line 69), `pattern.sub` at lines 270-271 reads the replacement as a template, so a bad group reference such as `\1` raises. Nothing catches it in `perform_replace`: in the URL scope the fallback at lines 254-256 returns the original message, in every other scope the handler at lines 365-375 rolls back. `foldSub` is total in the model, so neither path is taken for that cause. Other foreign exceptions that would reach the handler are not modelled either; the handler itself is `RollBack`. The `try`/`except` of `push_undo` and `do_undo` are dropped for the same reason.
- `_isRequest` and the editor's own buffer are not part of the state. What `getMessage` reads from the editor is a parameter.
- Selection bounds are non-negative. Python's wrap-around for negative slice indices is not modelled.
- A `None` match string is not distinguished from an empty one. Both are rejected the same way.
