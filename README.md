# Memo editor core in Dafny

A Dafny model of the core of a markdown memo editor (a Tauri desktop app: a
TypeScript/React front end over a Rust storage backend), with proofs of what
that core promises. It covers five pieces:

- **The task-list rewrite rule** (`bulletToTaskList.ts`): an editor plugin
  hook. It runs after every batch of transactions. When the only item of a
  bullet or ordered list holds a paragraph reading `[ ] `, `[x] ` or `[] `,
  with the cursor at the end of that text, the plugin replaces the whole list
  by a task list. The new list has one empty task item, and the cursor goes
  inside it.
  - `bullet_to_task_list.dfy` models the rule as a pure function. Its input is
    the transactions' `docChanged` flags, the schema's node types, the new
    document and the selection's `$from`. Its output is `None` ("no
    transaction") or the new document and selection.
  - `doc_tree.dfy` models the part of ProseMirror the rule relies on:
    - node trees and child-index paths;
    - node sizes in ProseMirror position units;
    - `before(depth)`;
    - `content.findIndex` and `doc.resolve`;
    - `replaceWith` over one node's range.
- **The autosave debouncer** (`useAutoSave.ts`), in `auto_save.dfy`. The
  specification is a pure step function over the hook's state. That state is
  the pending slot, whether a timer is armed, and the `saveMemo` calls issued
  so far. The class `AutoSaver` keeps that state in fields that its methods
  (`Save`, `Fire`, `Flush` and `Unmount`) update in place. Each method is
  proved to take exactly the specified step. The timer elapsing is an explicit
  `Fire` call.
- **Title derivation in the front end** (`frontmatter.ts` `extractTitle`), in
  `frontmatter.dfy`. The title is taken from the first line that is not blank
  after JavaScript's `trim`.
- **The memo file format of the backend** (`memo.rs`), in `memo.dfy`:
  - `parse_memo_file` and `serialize_memo`, with the YAML of the metadata
    treated as opaque;
  - their round trip;
  - `extract_title`, which uses Rust's `lines()` and `trim`. It is proved
    equal to the front end's `extractTitle` for text without U+FEFF and
    U+0085, the only characters whose whitespace status differs between the
    two languages.
- **The memo list entry** (`MemoListItem.tsx`), in `memo_list_item.dfy`:
  - `relativeTime`, taking the millisecond difference as an integer;
  - the `memo.title || "Untitled"` fallback.

`wrappers.dfy` holds `Option`. `text_util.dfy` holds trimming in both
languages' sense, `split("\n")`, `str::lines`, `starts_with` and `str::find`.

The model follows what the code does, including where that is narrower or
wider than its comments suggest:

- The doc comment of the extension (`bulletToTaskList.ts:4-9`) names `[ ] `
  and `[x] `. The pattern `^\[( |x)?\] $` at line 27 also accepts `[] `, which
  converts to an unchecked item (`BulletToTaskList.TypingEmptyBrackets`).
- The rule checks only that the list has one item (line 39). Everything else
  in that item, such as a nested list under the marker paragraph, is replaced
  along with the list (`BulletToTaskList.NestedContentDropped`).
- The hook holds a single pending slot (`useAutoSave.ts:6`), whatever the
  memo's id:
  - a `save` for a second memo before the timer fires replaces the first
    memo's pending save, which is then never written
    (`AutoSave.LatestSaveWins`, and `AutoSave.TwoSavesThenTimer` for any two
    entries, whatever their ids);
  - the unmount cleanup (lines 38-44) cancels the timer without writing the
    slot (`AutoSave.UnmountDropsPending`).

## Model

| member | source | states |
|---|---|---|
| TextUtil.Trim | src/lib/frontmatter.ts:3 | JavaScript or Rust `trim`, by the flavour's whitespace set. Specified by LeadingSpaceIsSpace, TrailingSpaceIsSpace, TrimBounds, TrimSlice and TrimEmptyIff below; TrimFlavorsAgree relates the two flavours |
| TextUtil.LeadingSpaceIsSpace | src/lib/frontmatter.ts:3 | the run of leading whitespace that `trim` drops is all whitespace, and it stops at the first non-whitespace character |
| TextUtil.TrailingSpaceIsSpace | src/lib/frontmatter.ts:3 | the run of trailing whitespace that `trim` drops is all whitespace, and it stops after the last non-whitespace character |
| TextUtil.TrimBounds | src/lib/frontmatter.ts:3 | `trim` keeps the span between the leading and the trailing whitespace; every character outside it is whitespace, and the span's first and last characters are not |
| TextUtil.TrimSlice | src/lib/frontmatter.ts:3 | a trimmed line is a contiguous slice of the line with only whitespace outside it and no whitespace at either end |
| TextUtil.TrimEmptyIff | src/lib/frontmatter.ts:7 | a line trims to the empty string exactly when it is all whitespace, which is the "blank line" the title loop skips |
| TextUtil.TrimFlavorsAgree | src-tauri/src/memo.rs:54 | Rust's `trim` and JavaScript's `trim` give the same string on text without U+FEFF and U+0085 |
| TextUtil.StartsWith | src/lib/frontmatter.ts:4 | `startsWith`, and Rust's `starts_with` at memo.rs:28 and :55: the prefix is no longer than the text and equals its first characters. ParseFailsIff, HeadingNotBlank and HeadingTitle state what the callers do with it |
| TextUtil.Find | src-tauri/src/memo.rs:33 | `str::find` returns the index of the first occurrence of the pattern, or none when it does not occur anywhere |
| TextUtil.Split | src/lib/frontmatter.ts:2 | `split("\n")` yields at least one piece, even for the empty string |
| TextUtil.SplitJoin | src/lib/frontmatter.ts:2 | the pieces of `split("\n")`, joined with newlines, give back the text, and no piece holds a newline |
| TextUtil.Lines | src-tauri/src/memo.rs:53 | Rust `str::lines`: split at `\n`, a `\r` before each `\n` dropped, no final empty line. Specified by LinesFromSplit and ExampleLines below; MemoFile.ExtractTitleMatchesFrontend and MemoFile.TrimIgnoresCarriageReturn use it |
| TextUtil.StripCarriageReturn | src-tauri/src/memo.rs:53 | the `\r` that `lines()` removes from the end of a line; MemoFile.TrimIgnoresCarriageReturn states that `trim` makes it irrelevant |
| TextUtil.LinesFromSplit | src-tauri/src/memo.rs:53 | `lines()` gives the pieces of `split("\n")`: every piece followed by a newline loses one final `\r`, the last piece is kept as it is, and it is dropped when empty (a text ending with a newline, or the empty text) |
| TextUtil.ExampleLines | src-tauri/src/memo.rs:53 | `"a\r\nb\r".lines()` is `["a", "b\r"]`: a `\r` is removed only before a newline |
| Frontmatter.ExtractTitle | src/lib/frontmatter.ts:1-12 | `extractTitle(markdown)`. Specified by TitleFromLines, TitleFromFirstNonBlank, HeadingTitle, PlainTitle, BlankBodyTitle and the two examples below |
| Frontmatter.LineTitle | src/lib/frontmatter.ts:3-8 | the title one non-blank trimmed line gives. Specified by HeadingTitle, PlainTitle and LineTitleFlavorsAgree below |
| Frontmatter.TitleFromLines | src/lib/frontmatter.ts:1-12 | the derived title is never the empty string |
| Frontmatter.HeadingNotBlank | src/lib/frontmatter.ts:4-5 | a trimmed line starting with `# ` still has non-blank text after the marker |
| Frontmatter.TitleFromFirstNonBlank | src/lib/frontmatter.ts:2-9 | the first line that is not blank after trimming decides the title; earlier lines are skipped and later ones ignored |
| Frontmatter.TitleOfBlankLines | src/lib/frontmatter.ts:11 | when every line is blank the title is "Untitled" |
| Frontmatter.HeadingTitle | src/lib/frontmatter.ts:2-6 | when every line before line `i` of `split("\n")` trims to empty and line `i` trims to `"# " + h`, the title is `h` trimmed again, with no length limit |
| Frontmatter.PlainTitle | src/lib/frontmatter.ts:2-9 | when every line before line `i` trims to empty and line `i` trims to a non-empty text `t` that is no heading, the title is the first min(50, length of `t`) characters of `t` |
| Frontmatter.BlankBodyTitle | src/lib/frontmatter.ts:1-12 | an empty or whitespace-only markdown text has the title "Untitled" |
| Frontmatter.LineTitleFlavorsAgree | src-tauri/src/memo.rs:55-59 | one trimmed line gives the same title under Rust's and JavaScript's trim, when it has no U+FEFF or U+0085 |
| Frontmatter.ExampleHeadingTitle | src/lib/frontmatter.ts:1-12 | `"# Hello\nworld"` has the title "Hello" |
| Frontmatter.ExamplePlainTitle | src/lib/frontmatter.ts:1-12 | `"   \nsome line"` has the title "some line": the blank first line is skipped |
| MemoFile.ParseMemoFile | src-tauri/src/memo.rs:27-45 | `parse_memo_file(content, id)`. Specified by ParseFailsIff, ParseAtFirstDelimiter, ParseNeedsOpeningDelimiter, ParseNeedsClosingDelimiter, ParseIndependentOfYaml and UnparsedYamlFallsBack below, and by the round trips |
| MemoFile.YamlText | src-tauri/src/memo.rs:48 | the emitted YAML text, or "" when emitting fails (`unwrap_or_default`); EmptyYamlRoundTrip covers the second case |
| MemoFile.ExtractTitle | src-tauri/src/memo.rs:52-63 | `extract_title(body)`. Specified by ExtractTitleMatchesFrontend below, which makes every lemma about Frontmatter.ExtractTitle hold of it too, and by MemoListItem.DerivedTitleDisplayedUnchanged |
| MemoFile.TrimStartNewlines | src-tauri/src/memo.rs:36 | `trim_start_matches('\n')` removes a prefix made only of newlines, and the rest does not start with a newline |
| MemoFile.ParseFailsIff | src-tauri/src/memo.rs:27-45 | parsing fails exactly when the file does not start with `---` or no `\n---` follows that opening delimiter |
| MemoFile.SerializeMemo | src-tauri/src/memo.rs:47-50 | the file starts with `---\n`, then the YAML text, then `---\n`, then the body, and has no other characters |
| MemoFile.ParseAtFirstDelimiter | src-tauri/src/memo.rs:32-44 | the YAML is the text up to the first `\n---`, and the body is the text after it with leading newlines stripped. A YAML text that does not parse gives the fallback metadata; the parse still succeeds |
| MemoFile.ParseNeedsOpeningDelimiter | src-tauri/src/memo.rs:28-30 | a file not starting with `---` does not parse |
| MemoFile.ParseNeedsClosingDelimiter | src-tauri/src/memo.rs:33 | a file with no `\n---` after its opening delimiter does not parse |
| MemoFile.ParseIndependentOfYaml | src-tauri/src/memo.rs:38-44 | whether a file parses, and the body it gives, do not depend on the YAML parser |
| MemoFile.UnparsedYamlFallsBack | src-tauri/src/memo.rs:38-42 | with a parser that rejects every text, a parsed memo has the fallback metadata: the given id and the current time twice |
| MemoFile.NoDelimiterExcludesLeadingDashes | src-tauri/src/memo.rs:33 | if `"\n" + yaml` holds no `\n---`, then the YAML cannot start with `---` |
| MemoFile.SerializedShape | src-tauri/src/memo.rs:47-50 | when the YAML text ends with a newline, the file is `---`, a newline and the YAML text without its last newline, `\n---`, then a newline and the body |
| MemoFile.NoEarlyClosingDelimiter | src-tauri/src/memo.rs:33 | if `"\n" + yaml` holds no `\n---`, then the first `\n---` in the serialised file is the one `serialize_memo` writes after the YAML |
| MemoFile.SerializeParseRoundTrip | src-tauri/src/memo.rs:27-50 | parsing a serialised memo gives its body with leading newlines stripped, and the metadata the parser reads from the YAML text (with the text's final newline moved to the front). This holds when the YAML ends with a newline and has no line starting with `---` |
| MemoFile.MemoRoundTrip | src-tauri/src/memo.rs:27-50 | under those hypotheses, with a body not starting with a newline and a parser that reads back the emitted YAML, `parse(serialize(memo)) == memo` |
| MemoFile.EmptyYamlRoundTrip | src-tauri/src/memo.rs:48-49 | when emitting the YAML fails (`unwrap_or_default`), the file still parses, with the body and the metadata that the empty YAML text gives |
| MemoFile.ExtractTitleMatchesFrontend | src-tauri/src/memo.rs:52-63 | the backend's `extract_title` over `lines()` equals the front end's `extractTitle` over `split("\n")` on every body without U+FEFF and U+0085 |
| MemoFile.TrimIgnoresCarriageReturn | src-tauri/src/memo.rs:53-54 | the `\r` that `lines()` strips before a newline is whitespace to `trim`, so it never changes a line's title |
| MemoListItem.RelativeTime | src/components/MemoListItem.tsx:10-24 | `relativeTime` on the millisecond difference. Specified by JustNowIff, MinutesAgoIff, HoursAgoIff, DaysAgoIff and LocaleDateIff below |
| MemoListItem.Render | src/components/MemoListItem.tsx:19-23 | the text of each label. Specified by RelativeLabel below |
| MemoListItem.CascadedFloors | src/components/MemoListItem.tsx:14-17 | the cascaded `Math.floor` divisions give whole minutes, hours and days of the millisecond difference |
| MemoListItem.JustNowIff | src/components/MemoListItem.tsx:13-19 | "just now" is shown exactly when less than a minute has passed, including for a negative difference |
| MemoListItem.MinutesAgoIff | src/components/MemoListItem.tsx:14-20 | the minutes label is used exactly for 1 to 59 whole minutes, and carries that number |
| MemoListItem.HoursAgoIff | src/components/MemoListItem.tsx:14-21 | the hours label is used exactly for 1 to 23 whole hours, and carries that number |
| MemoListItem.DaysAgoIff | src/components/MemoListItem.tsx:14-22 | the days label is used exactly for 1 to 29 whole days, and carries that number |
| MemoListItem.LocaleDateIff | src/components/MemoListItem.tsx:14-23 | the locale date is shown exactly from 30 whole days on |
| MemoListItem.RelativeLabel | src/components/MemoListItem.tsx:10-24 | the text shown for a millisecond difference: "just now" under a minute; `<n>m ago`, `<n>h ago` or `<n>d ago` with `n` the whole minutes (1 to 59), hours (1 to 23) or days (1 to 29) of the difference; the locale date from 30 days on |
| MemoListItem.Decimal | src/components/MemoListItem.tsx:20-22 | the number in a label is rendered as a non-empty string of decimal digits |
| MemoListItem.DecimalRoundTrip | src/components/MemoListItem.tsx:20-22 | the rendered digits read back as the number they were rendered from |
| MemoListItem.DisplayTitle | src/components/MemoListItem.tsx:38 | the list shows a non-empty title as it is, and "Untitled" for the empty title |
| MemoListItem.DerivedTitleDisplayedUnchanged | src/components/MemoListItem.tsx:38 | a title from the backend's `extract_title` is never empty, so the list shows it unchanged |
| MemoListItem.FrontendTitleDisplayedUnchanged | src/hooks/useMemos.ts:60 | a title the front end re-derives with `extractTitle` is never empty either, so the list shows it unchanged |
| AutoSave.Step | src/hooks/useAutoSave.ts:8-44 | the effect of one `save`, timer callback, `flush` or unmount on the slot, the timer and the writes. Specified by TimerEffect, FlushEffect, TimerAfterFlushWritesNothing, UnmountDropsPending and TwoSavesThenTimer below; the AutoSaver methods are proved to perform it |
| AutoSave.Run | src/hooks/useAutoSave.ts:8-44 | the state after a sequence of those events. Specified by LatestSaveWins, FlushWritesLatest, PendingHasTimer, WritesWereSaved and WritesAtMostSaves below |
| AutoSave.TakePending | src/hooks/useAutoSave.ts:13-17 | take, clear and write the slot; the write part of TimerEffect and FlushEffect below |
| AutoSave.LatestSaveWins | src/hooks/useAutoSave.ts:20-33 | the pending slot always holds the entry of the most recent `save`. Once the slot is empty again, the last write issued is that entry |
| AutoSave.FlushWritesLatest | src/hooks/useAutoSave.ts:8-18 | after any history with a `save`, a `flush` writes the most recently saved entry last |
| AutoSave.PendingHasTimer | src/hooks/useAutoSave.ts:20-33 | while mounted, a pending entry always has an armed timer that will write it |
| AutoSave.WritesWereSaved | src/hooks/useAutoSave.ts:8-33 | every write, and the pending entry, carries an `(id, body)` some `save` call was given |
| AutoSave.WritesAtMostSaves | src/hooks/useAutoSave.ts:20-33 | writes issued plus the pending entry never outnumber the `save` calls (coalescing) |
| AutoSave.TwoSavesThenTimer | src/hooks/useAutoSave.ts:22-31 | two saves then the timer give one write, of the second entry; the first is never written, whatever the two ids |
| AutoSave.TimerEffect | src/hooks/useAutoSave.ts:26-32 | the timer callback disarms the timer, empties the slot, and writes the slot's entry once if there is one, otherwise nothing |
| AutoSave.FlushEffect | src/hooks/useAutoSave.ts:8-18 | `flush` leaves no timer and an empty slot. It preserves the earlier writes and adds exactly one write, of the slot's entry, only if the slot was full |
| AutoSave.TimerAfterFlushWritesNothing | src/hooks/useAutoSave.ts:9-12 | after a `flush`, the cancelled timer can no longer write |
| AutoSave.UnmountDropsPending | src/hooks/useAutoSave.ts:38-44 | unmounting cancels the timer and leaves the pending entry unwritten |
| AutoSave.AutoSaver.constructor | src/hooks/useAutoSave.ts:5-6 | the refs start with no timer, an empty slot and no writes |
| AutoSave.AutoSaver.Save | src/hooks/useAutoSave.ts:20-36 | the slot is overwritten with the new entry and the timer re-armed; nothing is written; the new state is the specified step |
| AutoSave.AutoSaver.Fire | src/hooks/useAutoSave.ts:26-33 | the callback clears the timer and writes and clears a full slot; otherwise nothing changes; the new state is the specified step |
| AutoSave.AutoSaver.Flush | src/hooks/useAutoSave.ts:8-18 | cancels the timer and writes and clears a full slot. The returned promise rejects exactly when that write fails; the new state is the specified step |
| AutoSave.AutoSaver.Unmount | src/hooks/useAutoSave.ts:38-44 | only the timer is cancelled; the slot and the writes are unchanged |
| AutoSave.CoalescedSaves | src/hooks/useAutoSave.ts:20-33 | `save("a","v1")`, `save("a","v2")`, then the timer: exactly one write, of "v2" |
| AutoSave.FlushBeforeTimer | src/hooks/useAutoSave.ts:8-18 | `save` then `flush` writes once and resolves; the timer firing afterwards adds no write |
| DocTree.NodeSize | src/extensions/bulletToTaskList.ts:57 | `node.nodeSize`: a text node's length, 1 for a leaf, 2 plus the content for any other node. Used by FindIndex and the position lemmas below |
| DocTree.TextContent | src/extensions/bulletToTaskList.ts:26 | `node.textContent`: the texts of the node's text descendants in order. Pinned down on concrete documents by BulletToTaskList.SingleItemList and the typing examples |
| DocTree.Before | src/extensions/bulletToTaskList.ts:49 | `$from.before(d)`: the position just before the node at a path. Specified by ContentStartAfterBefore and ReplaceAtKeepsBefore below |
| DocTree.Resolve | src/extensions/bulletToTaskList.ts:58 | `doc.resolve(pos)`. Specified by FindIndexInside, ResolveContentStart and ResolveIntoChild below |
| DocTree.ReplaceAt | src/extensions/bulletToTaskList.ts:57 | `tr.replaceWith` over one node's range. Specified by ReplaceAtPlaces, ReplaceAtFrame, ReplaceAtAncestors and ReplaceAtKeepsBefore below |
| DocTree.PrefixValid | src/extensions/bulletToTaskList.ts:31-32 | `$from.node(d)` exists for every depth: each prefix of the cursor's path leads to an ancestor |
| DocTree.Ancestor | src/extensions/bulletToTaskList.ts:31-32 | `$from.node($from.depth - up)`: the node at the path cut `up` steps short, which PrefixValid above proves to exist. Triggered and RewriteKeepsAncestors state the rule's conditions and effects through it |
| DocTree.Position | src/extensions/bulletToTaskList.ts:58 | `$pos.pos`: where the cursor's parent node's content starts, plus the offset. RewriteResult and RewriteSelection use it to state that the new cursor is at `listPos + 3` |
| DocTree.ContentStartAfterBefore | src/extensions/bulletToTaskList.ts:49 | a node's content starts one position after `before` that node |
| DocTree.FindIndex | src/extensions/bulletToTaskList.ts:58 | `findIndex` returns a child index and that child's start. The start does not exceed the position, and a position past the start lies inside the returned child |
| DocTree.FindIndexInside | src/extensions/bulletToTaskList.ts:58 | a position strictly inside a child makes `findIndex` return that child and its start |
| DocTree.ResolveContentStart | src/extensions/bulletToTaskList.ts:58 | resolving the position where a non-leaf node's content starts gives that node's path at offset 0 |
| DocTree.ResolveIntoChild | src/extensions/bulletToTaskList.ts:58 | a position inside a child that the child resolves to the start of a path resolves in the parent to the same path with the child's index in front |
| DocTree.ReplaceAtPlaces | src/extensions/bulletToTaskList.ts:57 | after the replacement, the new node sits at the replaced node's path |
| DocTree.ReplaceAtFrame | src/extensions/bulletToTaskList.ts:57 | every node that is neither an ancestor nor a descendant of the replaced node is unchanged |
| DocTree.ReplaceAtAncestors | src/extensions/bulletToTaskList.ts:57 | each ancestor keeps its type, attributes, text, child count, and every child other than the one on the path |
| DocTree.ReplaceAtKeepsBefore | src/extensions/bulletToTaskList.ts:49-57 | the position before the replaced node is the same in the new document |
| BulletToTaskList.AppendTransaction | src/extensions/bulletToTaskList.ts:17-60 | the plugin's `appendTransaction`. Specified by RewriteIffTriggered, RewriteResult, RewriteFrame, RewriteKeepsAncestors, RewriteSelection and RewriteDoesNotRefire below |
| BulletToTaskList.Triggered | src/extensions/bulletToTaskList.ts:18-47 | the rule's conditions, stated with the three marker texts; RewriteIffTriggered proves it equivalent to the rule firing |
| BulletToTaskList.MatchMarker | src/extensions/bulletToTaskList.ts:27 | `text.match(...)` with the anchored marker pattern, and whether its group reads `x`. Specified by MarkerTexts and MarkerPrefixesDoNotMatch below |
| BulletToTaskList.EmptyTaskList | src/extensions/bulletToTaskList.ts:50-54 | a task list holding one task item (with `checked`) around an empty paragraph; PlacedTaskList and RewriteSelection below state its shape in the new document |
| BulletToTaskList.ReplaceWithTaskList | src/extensions/bulletToTaskList.ts:49-58 | the replacement and the new selection. Specified by ReplaceWithTaskListResult and NewSelection below |
| BulletToTaskList.MarkerTexts | src/extensions/bulletToTaskList.ts:27 | the pattern matches exactly `[] `, `[ ] ` and `[x] `, and the group reads `x` exactly for `[x] ` |
| BulletToTaskList.MarkerPrefixesDoNotMatch | src/extensions/bulletToTaskList.ts:27 | no proper prefix of a marker matches, so typing one character at a time converts only at the final space |
| BulletToTaskList.PlacedTaskList | src/extensions/bulletToTaskList.ts:49-58 | wherever the new empty task list sits in a document, `listPos + 3` is the start of its paragraph and resolves to offset 0 of that paragraph |
| BulletToTaskList.ReplaceWithTaskListResult | src/extensions/bulletToTaskList.ts:49-58 | the replacement's document is the old one with an empty task list at the list's path, and its selection is the cursor at the start of that list's paragraph |
| BulletToTaskList.NewSelection | src/extensions/bulletToTaskList.ts:49-58 | `listPos + 3` in the new document resolves to offset 0 of the empty paragraph inside the new task item |
| BulletToTaskList.RewriteIffTriggered | src/extensions/bulletToTaskList.ts:18-47 | a transaction is returned exactly when every condition holds: some transaction changed the document; the depth is at least 3; the parent is a paragraph whose text is one of the three markers; the cursor is at the text's end; the grandparent is a list item; its parent is a bullet or ordered list with one child; the schema has task lists and task items |
| BulletToTaskList.RewriteResult | src/extensions/bulletToTaskList.ts:41-58 | the new document is the old one with the list replaced by one task list holding one task item, checked exactly for `[x] `, around an empty paragraph. The new cursor is at the start of that paragraph |
| BulletToTaskList.RewriteFrame | src/extensions/bulletToTaskList.ts:57 | every node outside the replaced list and its ancestors is unchanged |
| BulletToTaskList.RewriteKeepsAncestors | src/extensions/bulletToTaskList.ts:57 | every ancestor of the list keeps its type, its child count and all its other children |
| BulletToTaskList.RewriteSelection | src/extensions/bulletToTaskList.ts:49-58 | the new selection is a valid cursor at offset 0 of an empty paragraph, inside a task item (with its checked attribute) inside the task list, at position `listPos + 3` |
| BulletToTaskList.RewriteDoesNotRefire | src/extensions/bulletToTaskList.ts:23-28 | the rule never fires again on its own result, whatever the next transactions are |
| BulletToTaskList.SingleItemList | src/extensions/bulletToTaskList.ts:18-58 | in a document that is one single-item list, with the cursor at the end of the item's paragraph, the list converts exactly for the three markers, into a document holding only the new task list |
| BulletToTaskList.TypingUncheckedMarker | src/extensions/__tests__/bulletToTaskList.test.ts:31-46 | `[ ] ` typed into an empty bullet item gives a task list whose item is unchecked, with the cursor inside that item |
| BulletToTaskList.TypingCheckedMarker | src/extensions/__tests__/bulletToTaskList.test.ts:48-61 | `[x] ` gives a checked task item |
| BulletToTaskList.TypingEmptyBrackets | src/extensions/bulletToTaskList.ts:27 | `[] ` in an ordered list also converts, to an unchecked item |
| BulletToTaskList.IncompleteOrWrongMarker | src/extensions/__tests__/bulletToTaskList.test.ts:93-111 | `[ ]` without its trailing space, and `[y] `, leave the list alone |
| BulletToTaskList.MultiItemListStays | src/extensions/__tests__/bulletToTaskList.test.ts:80-91 | a marker in the second item of a two-item list leaves the list alone |
| BulletToTaskList.NestedContentDropped | src/extensions/bulletToTaskList.ts:31-57 | a nested list under the marker paragraph is replaced along with the list; the item's own content is not checked |

## Left out

- ProseMirror's transaction machinery, step maps and selection mapping are
  not part of this model. The rule's result is the new document and the
  resolved new selection. Only `$from` of the incoming selection is modelled,
  since the rule reads nothing else.
- Node types other than those the rule distinguishes are `Atom` (a leaf of
  size 1) or `Block` (a node with content). Atoms contribute no text to
  `textContent`, which is ProseMirror's default for a node spec without
  `leafText`. Marks and schema content rules are not modelled.
- ProseMirror positions and JavaScript string lengths count UTF-16 code
  units. The model counts characters (Unicode scalar values), so a text
  holding characters outside the Basic Multilingual Plane has smaller sizes
  here.
- Frontmatter.ExtractTitle: `slice(0, 50)` counts UTF-16 code units. The model
  takes 50 characters, as Rust's `chars().take(50)` does. For text with
  characters outside the Basic Multilingual Plane, the model's front-end title
  and `MemoFile.ExtractTitleMatchesFrontend` do not capture the difference.
- The delay (`delay = 1000`), `setTimeout`, and the asynchronous completion of
  `saveMemo` are not modelled. The timer elapsing is an explicit event, and a
  write is recorded when it is issued. No claim is made about how many writes
  are in flight at once.
- AutoSave.AutoSaver.Fire: a failed `saveMemo` inside the timer callback
  rejects a promise nobody awaits. The model records the write and does not
  model that failure; only `Flush` reports a failed write.
- `serde_yaml` is a pair of parameters: the text the emitter produces (or
  none) and the metadata the parser reads (or none). The round trip therefore
  states its hypotheses on the emitted text. `chrono` timestamps are opaque
  integers, and the two `Utc::now()` readings of the fallback are parameters.
- Rust's byte-indexed slicing is modelled as character indexing, which agrees
  because every index used falls after an ASCII delimiter.
- `relativeTime`: parsing `dateStr`, `Date.now()` and `toLocaleDateString()`
  are left out. The difference in milliseconds is the input, and the locale
  date is a parameter of `Render`. Double-precision rounding of `diff / 1000`
  is not modelled; it only matters for differences beyond 2^53 milliseconds.
- The rest of the backend is not part of this model: the command layer's
  file system access, id generation and clock, the front end's command
  wrappers, and the app's setup code. So are the React components and state
  hooks other than the two functions above.
