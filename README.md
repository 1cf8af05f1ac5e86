# Paragraph Injection Manager — a Dafny model

Paragraph Injection Manager is a WordPress plugin. It stores one pre-rendered
HTML fragment per post and inserts it into the post body at display time,
once every N paragraphs. This project models its core, the class
`ParagraphInjectionManager` in `paragraph-injection-manager.php`, and proves
properties of that model.

- **Splicer** (`inject_message_into_content`). The post body is split on
  `</p>`, with the tag name matched case-insensitively. Empty runs are
  dropped and the pieces are paired two at a time into paragraph units. The
  block `<p>fragment</p>` is then spliced into the growing unit list, whose
  bound is re-read on every loop test.
- **Category resolution and rendering** (inside `handle_injection`). A truthy
  per-post override wins. Otherwise the post's first own category is used.
  Otherwise the post is skipped. The message template's `{category}` is then
  replaced by a link to the chosen category.
- **Batch assigner** (`handle_injection`). The batch holds
  min(100, R) of the R published posts not yet done. Each post in it gets at
  most one fragment. It gets none when it already has a truthy one or when no
  category resolves. Every batch post is appended to the `done` record, which
  is written once, after the loop.
- **Reset, remaining count and settings** (`handle_clear_records`,
  `admin_page_html`, `handle_save_message`, `save_meta`).

Files and modules:

- `wrappers.dfy`: `Wrappers.Option`.
- `text.dfy`: `Text`, the PHP string primitives used by the plugin: truthiness, `implode` and `str_replace`.
- `splicer.dfy`: `Splicer`.
- `categories.dfy`: `Categories`.
- `manager.dfy`: `Manager`, which holds the class `ParagraphInjectionManager` with the parts of the WordPress store the plugin reads and writes.

Facts about the code that a reader might not expect:

- The loop test on line 304 is re-evaluated against the growing list and never inserts after the last unit. P units at interval N therefore receive ⌊(P−1)/N⌋ blocks, and a body whose paragraph count is a multiple of N gets no block at its end.
- An override whose lookup fails skips the post (lines 233-236). The post's own categories are not consulted as a fallback.
- The remaining count on line 110 counts the published ids missing from `done`. It is not the number of published posts minus the length of `done`.
- The splicer does not clamp the interval (line 290). An interval of 0 would make the loop on line 304 run forever. The only writer of the option clamps it to at least 1 (line 182), so the model states that as the class invariant `Valid()` and requires `interval >= 1` in the splicer.

## Model

| member | source | states |
|---|---|---|
| `Text.Truthy` | paragraph-injection-manager.php:288 | definition: PHP truthiness of a string, false exactly for `""` and `"0"` (also the test on line 216) |
| `Text.Concat` | paragraph-injection-manager.php:308 | definition: `implode('', …)` |
| `Text.ConcatAppend` | paragraph-injection-manager.php:308 | `implode('')` distributes over list concatenation |
| `Text.ReplaceAll` | paragraph-injection-manager.php:241-245 | definition: `str_replace` with one needle, scanning left to right, replacing non-overlapping occurrences and never rescanning inserted text |
| `Text.ReplaceFree` | paragraph-injection-manager.php:241-245 | `str_replace` leaves text without the needle unchanged |
| `Text.ReplaceAcross` | paragraph-injection-manager.php:241-245 | needle-free text is copied, then the needle that follows it is replaced |
| `Text.ReplaceJoin` | paragraph-injection-manager.php:241-245 | needle-free parts joined by the needle come out joined by the replacement (needle cannot overlap itself) |
| `Text.Split` | paragraph-injection-manager.php:241-245 | definition: a text cut at each occurrence of the needle, scanning left to right as `str_replace` does |
| `Text.SplitJoin` | paragraph-injection-manager.php:241-245 | the pieces joined by the needle give the text back |
| `Text.SplitFree` | paragraph-injection-manager.php:241-245 | no piece contains the needle |
| `Splicer.Scan` | paragraph-injection-manager.php:292 | definition: the left-to-right scan behind the case-insensitive `preg_split` on `</p>` with delimiter capture and no empty pieces: each `</p>` (either case of `p`) is its own piece, and empty runs are dropped |
| `Splicer.Pieces` | paragraph-injection-manager.php:292-293 | definition: the split of the whole content |
| `Splicer.ScanConcat` | paragraph-injection-manager.php:292 | the split pieces concatenate back to the input |
| `Splicer.ScanNonEmpty` | paragraph-injection-manager.php:292 | no piece is empty, and there are no pieces only for an empty input |
| `Splicer.SplitShaped` | paragraph-injection-manager.php:292 | definition: every piece is a closing tag or a run in which no closing tag starts, and no two runs are neighbours |
| `Splicer.ScanShape` | paragraph-injection-manager.php:292 | the scan cuts exactly at closing tags: its pieces are tags and maximal tag-free runs |
| `Splicer.PiecesFacts` | paragraph-injection-manager.php:292-293 | split is lossless and drops empties; it yields nothing exactly when the content is empty; it cuts exactly at each `</p>`, every piece being a tag or a maximal run without one |
| `Splicer.Pairs` | paragraph-injection-manager.php:295-300 | definition: pieces taken two at a time from the front, a lone last piece alone |
| `Splicer.PairsAt` | paragraph-injection-manager.php:295-300 | there are ⌈pieces/2⌉ units; unit k is piece 2k followed by piece 2k+1 when that exists, so a leading or doubled `</p>` shifts the pairing |
| `Splicer.PairsConcat` | paragraph-injection-manager.php:295-300 | pairing loses no text |
| `Splicer.Units` | paragraph-injection-manager.php:292-300 | the units of the content concatenate back to it exactly; there are none only for empty content |
| `Splicer.PairUnits` | paragraph-injection-manager.php:295-300 | the pairing loop builds exactly the paired unit list |
| `Splicer.Interleave` | paragraph-injection-manager.php:302-306 | definition: reference form of the insertion loop: copy N units, then a block only if another unit follows, and repeat |
| `Splicer.Inserting` | paragraph-injection-manager.php:302-306 | definition: the loop's state after i units: the finished front, the units still to pass, and the next insertion offset |
| `Splicer.InsertBlocks` | paragraph-injection-manager.php:302-306 | the splicing loop over the growing list terminates for N ≥ 1 and yields the reference interleaving |
| `Splicer.InterleaveLength` | paragraph-injection-manager.php:302-306 | P ≥ 1 units give P + ⌊(P−1)/N⌋ entries; no units give none |
| `Splicer.InterleaveUnitAt` | paragraph-injection-manager.php:302-306 | original unit j lands at j + ⌊j/N⌋, in order |
| `Splicer.InterleaveBlockAt` | paragraph-injection-manager.php:302-306 | block k, for 1 ≤ k ≤ ⌊(P−1)/N⌋, sits just before original unit k·N |
| `Splicer.InterleaveEndsWithUnit` | paragraph-injection-manager.php:304 | the last entry is the last original unit; no block follows it |
| `Splicer.StripInterleave` | paragraph-injection-manager.php:302-306 | removing the inserted slots gives back the original units |
| `Splicer.InterleaveWide` | paragraph-injection-manager.php:304 | with N ≥ P nothing is inserted |
| `Splicer.Spliced` | paragraph-injection-manager.php:302-306 | definition: the layout the loop must produce: P + ⌊(P−1)/N⌋ entries, unit j at j + ⌊j/N⌋, block k at k·N + k − 1, and the units recovered by removing the blocks |
| `Splicer.InterleaveSpliced` | paragraph-injection-manager.php:302-306 | the reference interleaving has exactly that layout |
| `Splicer.Block` | paragraph-injection-manager.php:305 | definition: the inserted paragraph `<p>` + fragment + `</p>` |
| `Splicer.Injected` | paragraph-injection-manager.php:287-308 | definition: the whole splice on values, returning the content for a falsy fragment or an empty split |
| `Splicer.InjectIntoContent` | paragraph-injection-manager.php:287-308 | the splice once fragment and interval are known equals `Injected` |
| `Splicer.InjectedNoOp` | paragraph-injection-manager.php:288-293 | a falsy fragment (`""`, `"0"`) or empty content returns the content unchanged |
| `Splicer.InjectedWide` | paragraph-injection-manager.php:302-308 | with N ≥ P the output equals the input |
| `Splicer.InjectedShape` | paragraph-injection-manager.php:292-308 | otherwise the output is the join of some list with the `Spliced` layout over the content's units and `<p>fragment</p>` |
| `Splicer.ExampleFiveEveryTwo` | paragraph-injection-manager.php:302-306 | 5 units, N=2 gives `[A,B,F,C,D,F,E]` |
| `Splicer.ExampleFourEveryTwo` | paragraph-injection-manager.php:302-306 | 4 units, N=2 gives `[A,B,F,C,D]` |
| `Splicer.ExampleThreeEveryOne` | paragraph-injection-manager.php:302-306 | 3 units, N=1 gives `[A,F,B,F,C]` |
| `Splicer.ExampleLeadingClose` | paragraph-injection-manager.php:292-300 | `</p>A</p>` pairs as `["</p>A", "</p>"]` |
| `Categories.Resolve` | paragraph-injection-manager.php:221-236 | a truthy override is the only candidate and a failed lookup gives none; without an override the first own category is used, or none |
| `Categories.OverrideWins` | paragraph-injection-manager.php:224-227 | an override that resolves is used even when the post has its own categories |
| `Categories.OverrideNoFallback` | paragraph-injection-manager.php:224-236 | an override that does not resolve skips the post, with no fallback |
| `Categories.Anchor` | paragraph-injection-manager.php:238-243 | definition: the link `<a href="esc_url(link)" title="esc_attr(esc_html(name))">esc_html(name)</a>` |
| `Categories.Render` | paragraph-injection-manager.php:241-245 | definition: the template with every `{category}` replaced by the anchor |
| `Categories.RenderJoin` | paragraph-injection-manager.php:238-245 | each `{category}` becomes the anchor and all other template text is unchanged |
| `Categories.RenderFree` | paragraph-injection-manager.php:241-245 | a template without `{category}` renders as itself |
| `Categories.SplitAtPlaceholder` | paragraph-injection-manager.php:241-245 | every template can be written as placeholder-free pieces joined by `{category}`, so `RenderJoin` covers every template |
| `Categories.RenderAny` | paragraph-injection-manager.php:238-245 | any template renders as its placeholder-free pieces joined by the anchor |
| `Manager.MetaText` | paragraph-injection-manager.php:287 | definition: `get_post_meta(id, key, true)` on the fragment meta, `""` when absent |
| `Manager.OverrideOf` | paragraph-injection-manager.php:221 | definition: the stored override, absent reading as falsy |
| `Manager.CategoriesOf` | paragraph-injection-manager.php:222 | definition: `get_the_category(id)`, empty when the post has none |
| `Manager.Remaining` | paragraph-injection-manager.php:101-111 | the remaining count is at most the number of published posts, and equals it when `done` is empty |
| `Manager.RemainingAfterBatch` | paragraph-injection-manager.php:204-251 | each batch of distinct, published, not-done posts lowers the remaining count by its size |
| `Manager.BatchFor` | paragraph-injection-manager.php:199-206 | the batch query returns min(100, R) posts: never more than remain or than 100, and at least one while any remains |
| `Manager.RunsReachZero` | paragraph-injection-manager.php:196-251 | runs of the batch action starting from R remaining reach zero after exactly ⌈R/100⌉ runs, and not before |
| `Manager.AppendDistinct` | paragraph-injection-manager.php:204-251 | `done` stays free of duplicates when the batch excludes it |
| `Manager.Step` | paragraph-injection-manager.php:216-248 | definition: one pass of the loop body: a truthy fragment is kept, else the rendered template, unslashed as `update_post_meta` stores it, is written when a category resolves |
| `Manager.Assigned` | paragraph-injection-manager.php:215-249 | definition: the fragment store after the batch, the loop body applied to each batch id in order |
| `Manager.RunBatch` | paragraph-injection-manager.php:215-249 | every batch id is appended to `done` once, in order; the fragment store becomes `Assigned` |
| `Manager.AssignedOutside` | paragraph-injection-manager.php:215-249 | fragments of posts outside the batch do not change |
| `Manager.AssignedInside` | paragraph-injection-manager.php:216-248 | a truthy fragment is kept; otherwise a fragment is written exactly when a category resolves, and it is the rendered template after `wp_unslash` |
| `Manager.ParagraphInjectionManager.Done` | paragraph-injection-manager.php:196-197 | definition: the `done` option as read back, empty when absent |
| `Manager.ParagraphInjectionManager.Message` | paragraph-injection-manager.php:213 | definition: the stored message, or the default message with its `{category}` placeholder |
| `Manager.ParagraphInjectionManager.Interval` | paragraph-injection-manager.php:290 | under the class invariant, the interval the splicer reads (stored or default) is at least 1, so the splicing loop terminates |
| `Manager.ParagraphInjectionManager.constructor` | paragraph-injection-manager.php:101-111 | a store with nothing recorded satisfies the invariant and has every published post remaining |
| `Manager.ParagraphInjectionManager.SaveMeta` | paragraph-injection-manager.php:79-81 | the posted selection, already `intval`-ed, is stored as the override |
| `Manager.ParagraphInjectionManager.HandleSaveMessage` | paragraph-injection-manager.php:175-183 | the sanitised message is stored; the interval is stored as `max(1, v)`, keeping the invariant |
| `Manager.ParagraphInjectionManager.HandleInjection` | paragraph-injection-manager.php:196-251 | for a batch as the query returns it (min(100, R) distinct published not-done posts): an empty batch changes nothing; otherwise `done` becomes old `done` + batch, fragments become `Assigned`, and the remaining count becomes R − min(100, R), one step of `RunsReachZero` |
| `Manager.ParagraphInjectionManager.HandleClearRecords` | paragraph-injection-manager.php:263-275 | only the exact word `DELETE` clears; then no post has a fragment, `done` reads empty and every published post is remaining; otherwise nothing changes |
| `Manager.ParagraphInjectionManager.InjectMessageIntoContent` | paragraph-injection-manager.php:282-309 | outside a single post the content is unchanged; otherwise it is the splice of the post's stored fragment at the stored interval |

## Left out

- Hook registration, the admin menu, the admin page HTML, the meta box and its recursive `<option>` printer (lines 19-71, 85-166) are UI output. Only the remaining-count arithmetic of the admin page is modelled.
- Capability and nonce checks, `DOING_AUTOSAVE`, `wp_die`, `wp_redirect` and `exit` are authorisation and HTTP plumbing. A failed check simply means the action does not run. The reset's confirm guard is modelled.
- The query of line 206 is a parameter of `HandleInjection`. Its requires state the query's contract: min(100, R) distinct published ids, none of them in `done`, where R is the remaining count. Which of the remaining posts the query picks, and their order, are not modelled.
- `esc_url`, `esc_html`, `esc_attr`, `get_category_link` and the `wp_unslash` applied by `update_post_meta` are arbitrary functions in `Categories.Env`. `wp_kses` is a function parameter of `HandleSaveMessage`. Their internals are not modelled.
- WordPress delivers `$_POST` slashed. `HandleSaveMessage` receives the message field as delivered and stores `kses` of it, as `update_option` does not unslash. What the slashing does to a value is not modelled.
- `intval` of posted form strings is not modelled. Posted values arrive as integers, and an absent form field is `None`.
- `is_singular('post')` and the global `$post` are parameters of `InjectMessageIntoContent`.
- The `DELETE FROM postmeta` query is modelled only by its effect: the fragment map becomes empty.
- `get_option`'s `is_array` guard is not modelled. The `done` record is `None` when deleted and otherwise always a list, since only this plugin writes it.
- `Manager.RunBatch`: the per-post `update_post_meta` writes are collected in a local map, and `HandleInjection` stores that map once after the loop. Batch ids are distinct and no post reads another post's fragment, so the final store is the same. The state after a crash part-way through a batch is not modelled.
- The published posts, their own categories and the category table are fixed when the manager is built, and no operation changes them. Publishing, unpublishing or re-categorising posts between batch runs is not modelled, so `RunsReachZero` and the remaining-count promise of `HandleInjection` describe an unchanging set of posts.
- Concurrent admin requests are not modelled. Each request is single-threaded and the code has no locking.
- PHP strings are byte strings, and the model's strings are sequences of Dafny characters. Every literal the code matches or inserts (`</p>`, `<p>`, `{category}`, `DELETE`) is ASCII, so splitting, pairing and replacing agree, but multibyte content is seen as characters rather than bytes.
- Case-insensitive matching covers only the tag letter `p`/`P`. The other characters of `</p>` have no case.
