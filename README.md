# llm_tools in Dafny

A model of the core of the llm_tools repository, with proofs about it. The centre is the
PDF extraction of `utils/pdf_extract.py`. It takes the layout analysis of each page of a
document, a list of blocks with types, boxes, texts and CHILD relationships. From that it
builds the list of top-level parts: layout blocks, table captions and figures. Each part gets
its joined text, a part index, and an image index for figures. Smaller pieces are modelled
beside it:

- the JSON repair, output parsing and retrying step runner of `utils/prompt_utils.py`;
- the text splitter for speech synthesis in `utils/voice_utils.py`;
- the arXiv id and result-stream helpers of `utils/arxiv_utils.py`;
- the chat-room connection manager of `llm_clis/chat_store/server.py`;
- the recommender state and its toy driver in `voice_browser/`;
- the YYYYMMDD date helpers of `download_today_arxiv_summary.py`.

Modules, one file each:

| file | module | models |
|---|---|---|
| wrappers.dfy | Wrappers | Option and Result |
| decimal.dfy | Decimal | `str(int)`, `format(n, "0Nd")` and reading digits back |
| block_type.dfy | BlockTypes | the `BlockType` enum and its three flags |
| pdf_layout.dfy | PdfLayout | blocks, `PDFLayout`, `PDFPart`, saving a part to a dictionary and loading it back |
| pdf_graph.dfy | PdfGraph | CHILD edges, the parent and child dictionaries, the containment filter's parent loop |
| pdf_text.dfy | PdfText | `gather_child_texts` and the two text-join rules |
| pdf_extract.dfy | PdfExtract | `gather_pdf_parts` |
| prompt_utils.dfy | PromptUtils | `fix_json`, `_parse`, `ExecutionState`, `Executor._wrap_base_function`, `Tactic`, `TacticBuilder` |
| voice_utils.dfy | VoiceUtils | `split_text` and the separators its callers pass |
| arxiv_utils.dfy | ArxivUtils | `DictDB`, `short_id`, `iter_per_category`'s stop condition, `to_arxiv_id`, `from_arxiv_url` |
| chat_server.dfy | ChatServer | `ConnectionManager` |
| recommend_models.dfy | RecommendModels | `ItemWithIndex`, `WaitingState`, `RecommendState.update` |
| recommend_toy.dfy | RecommendToy | `ToyRecommender` and the loop of `test_foo` |
| ymd_format.dfy | DateFormat | `ymd_format`, `datedir_name` |

The code is written in two styles, following the source:

- **Step by step.** Where the source works by changing things one step at a time, the model
  is imperative and each method is proved equal to a specification function. This covers:
  - the page and block loops of `gather_pdf_parts`;
  - the `to_parents`/`to_children` loop;
  - the recursive walk that appends to a shared list;
  - the retry loop and the tactic loop;
  - `DictDB.update`;
  - the generator loop of `iter_per_category`;
  - the connection manager;
  - the loop of `test_foo`.
- **Pure.** Code made of expressions is modelled by functions and lemmas.

The properties are then proved about the specification functions.

Where the two sources of truth differ, the model follows the code:

- **The non-list join keeps a trailing space.** Each non-empty text without a trailing hyphen
  gets one space after it, so `["Long", "para-", "graph"]` joins to `"Long paragraph "`
  (utils/pdf_extract.py:259-260).
- **A dangling child id is an error.** A child id that no block of the page carries is not
  skipped. The walk reaches it and raises KeyError (utils/pdf_extract.py:279-280). The model
  returns `MissingChild`. The lookup is the call's argument, so it happens before the call,
  and a missing child at the recursion limit is still a KeyError.
- **A cycle of CHILD edges raises RecursionError.** The model gives the walk a depth budget
  standing for the interpreter's recursion limit, and returns `RecursionLimit`.

## Model

| member | source | states |
|---|---|---|
| BlockTypes.FromName | utils/pdf_extract.py:60 | `BlockType[name]` finds a member with exactly that name, or fails |
| BlockTypes.LayoutIffLayoutName | utils/pdf_extract.py:17-47 | `is_layout` holds exactly for the members named LAYOUT_… |
| BlockTypes.TableFlagExactly | utils/pdf_extract.py:25-31 | `is_table` holds exactly for MERGED_CELL, TABLE_TITLE and TABLE_FOOTER |
| BlockTypes.FigureFlagExactly | utils/pdf_extract.py:39-40 | `is_figure` holds exactly for LAYOUT_FIGURE and LAYOUT_TABLE, which are layout types and not table types |
| BlockTypes.NameRoundTrip | utils/pdf_extract.py:17-47 | looking a member up by its own name gives it back |
| BlockTypes.NamesDistinct | utils/pdf_extract.py:17-41 | the 24 member names are pairwise distinct |
| BlockTypes.FindByName | utils/pdf_extract.py:60 | a lookup returns a listed member with that name, and fails only when no listed member has it |
| BlockTypes.FindFirst | utils/pdf_extract.py:60 | a name lookup over a member list finds the first member with that name |
| PdfLayout.FromDict | utils/pdf_extract.py:58-67 | an unknown type name fails with that name; otherwise the type has the name, the first corner is (Left, Top), and the box spans Width and Height |
| PdfLayout.FromJsonDict | utils/pdf_extract.py:69-77 | it succeeds exactly for a known type name, and the stored layout dictionary is given back unchanged |
| PdfLayout.ToDict | utils/pdf_extract.py:93-115 | the dictionary of a saved part; its failure case and round trip are stated by SaveLoadRoundTrip and SavedImagePath |
| PdfLayout.FromJson | utils/pdf_extract.py:117-128 | reading a part back; SaveLoadRoundTrip states that it inverts ToDict except for the image |
| PdfLayout.SaveLoadRoundTrip | utils/pdf_extract.py:93-129 | saving fails exactly for an image without an index; loading a saved part gives the part back without its image |
| PdfLayout.SavedImagePath | utils/pdf_extract.py:94-101 | the saved dictionary names an image path exactly when the part has an image, and the path is built from the image index |
| PdfLayout.ImagePathHoldsIndex | utils/pdf_extract.py:80 | the image file name reads back as its index, and for indices below a million it has six digits |
| Decimal.DigitsRoundTrip | utils/pdf_extract.py:80 | reading `str(n)` back gives n |
| Decimal.ZeroPadRoundTrip | utils/pdf_extract.py:80 | zero padding keeps the value and pads to exactly the width unless the number is wider |
| Decimal.FormatZeroPaddedRoundTrip | utils/pdf_extract.py:80 | `format(n, "0Nd")` reads back as n, negative numbers included |
| PdfGraph.ChildIds | utils/pdf_extract.py:203-210 | a block's child ids are exactly the ids of its CHILD relationships; relationships of other types add none |
| PdfGraph.BlockEdges | utils/pdf_extract.py:203-210 | one block gives one edge per child id, from the block's id, in Ids order |
| PdfGraph.Edges | utils/pdf_extract.py:203-210 | every edge's parent is a block id of the page |
| PdfGraph.ParentsOfMembership | utils/pdf_extract.py:213-214 | `to_parents[c]` holds p exactly when the edge (p, c) exists |
| PdfGraph.ChildrenOfMembership | utils/pdf_extract.py:213-215 | `to_children[p]` holds c exactly when the edge (p, c) exists |
| PdfGraph.BuildGraph | utils/pdf_extract.py:211-215 | the filling loop builds, for every id, the parent and child lists that the edges give, in edge order |
| PdfGraph.ChildrenFollowBlockOrder | utils/pdf_extract.py:203-215 | `to_children[p]` lists the CHILD ids of the blocks with id p, in block order and then in Ids order |
| PdfGraph.ParentsFromChildRelationships | utils/pdf_extract.py:203-214 | p is a recorded parent of c exactly when a block with id p names c in a CHILD relationship |
| PdfGraph.BlockEdgeMembership | utils/pdf_extract.py:203-210 | (p, c) is an edge of a block exactly when the block's id is p and c is one of its child ids |
| PdfGraph.ChildrenOfAppend | utils/pdf_extract.py:211-215 | the child lists built from two runs of edges are the lists of each run, concatenated |
| PdfGraph.EdgeMembership | utils/pdf_extract.py:203-210 | an edge (p, c) exists exactly when a block with id p lists c as a child |
| PdfGraph.IsSubsumed | utils/pdf_extract.py:219-228 | the parent loop sets `skip` exactly when some parent has a layout, table or figure type |
| PdfText.GatherChildTexts | utils/pdf_extract.py:275-280 | the recursive walk appends exactly the texts the specification collects, or fails as it does (missing child, recursion limit) |
| PdfText.GatherListAfterFailure | utils/pdf_extract.py:279-280 | once one child's walk raises, the whole walk raises the same error |
| PdfText.GatherLeafIgnoresChildren | utils/pdf_extract.py:276-277 | a block with text contributes just that text, and its children are never visited |
| PdfText.GatherEmptyTextIsAbsent | utils/pdf_extract.py:276 | an empty `Text` is treated as no text |
| PdfText.GatherListAppend | utils/pdf_extract.py:279-280 | the walk over a child list is the walks over its two halves, concatenated |
| PdfText.GatherDepthMonotone | utils/pdf_extract.py:275-280 | a walk that finishes within a recursion limit finishes with the same texts under any higher limit |
| PdfText.GatherListDepthMonotone | utils/pdf_extract.py:279-280 | the same for a list of children |
| PdfText.JoinTexts | utils/pdf_extract.py:256-260 | the join rule chosen by the part's own type; ListJoinExample, HyphenJoinExample, HyphenJoinAppend and HyphenJoinWithoutHyphens state what each branch gives |
| PdfText.HyphenJoin | utils/pdf_extract.py:258-260 | the non-list join, stated by HyphenJoinAppend, HyphenJoinWithoutHyphens and HyphenJoinExample |
| PdfText.ListJoinExample | utils/pdf_extract.py:256-257 | list items are joined with one blank line |
| PdfText.HyphenJoinExample | utils/pdf_extract.py:258-260 | a trailing hyphen joins a word back together, and the last piece keeps its space |
| PdfText.HyphenJoinAppend | utils/pdf_extract.py:259-260 | the non-list join distributes over concatenation |
| PdfText.HyphenJoinWithoutHyphens | utils/pdf_extract.py:259-260 | without hyphens, the non-list join is the single-space join plus one trailing space |
| PdfExtract.IdToBlock | utils/pdf_extract.py:199 | `id_to_blocks` has exactly the page's ids as keys, each mapped to a block with that id |
| PdfExtract.IdToBlockFromPage | utils/pdf_extract.py:199 | each id maps to the last block of the page carrying it, and every such last block is found under its id |
| PdfExtract.IdToLayout | utils/pdf_extract.py:200-202 | `id_to_layout`, when it builds, has exactly the page's ids as keys |
| PdfExtract.IdToLayoutOkIff | utils/pdf_extract.py:200-202 | `id_to_layout` builds exactly when every block's type name is a member of BlockType |
| PdfExtract.IdToLayoutFirstError | utils/pdf_extract.py:200-202 | when it raises, the error is that of the first block with an unknown type name |
| PdfExtract.IdToLayoutValues | utils/pdf_extract.py:199-202 | each id holds `from_dict` of the last block with that id, which is the block `id_to_blocks` holds for it |
| PdfExtract.FigureCountAppend | utils/pdf_extract.py:240-250 | the number of figure parts adds up over concatenation |
| PdfExtract.BlockStepNumbered | utils/pdf_extract.py:217-271 | one block adds at most one part, numbered from the current counters; the image counter moves only for a figure |
| PdfExtract.BlockStepsNumbered | utils/pdf_extract.py:217-271 | the parts of a page's first n blocks are numbered consecutively and lie on that page |
| PdfExtract.PagePartsNumbered | utils/pdf_extract.py:199-271 | the parts of one page are numbered on from the counters it starts with |
| PdfExtract.PagesNumbered | utils/pdf_extract.py:192-272 | the parts of the first n pages are numbered from zero |
| PdfExtract.PagesOrdered | utils/pdf_extract.py:196-198 | the parts of the first n pages lie on pages 1..n, in page order |
| PdfExtract.DenseIndices | utils/pdf_extract.py:192-271 | part indices are 0..N-1 in output order; a figure's image index counts the figures before it and other parts have none; a part has an image exactly when it is a figure |
| PdfExtract.PagesInOrder | utils/pdf_extract.py:194-271 | pages are numbered from 1 in input order, and every part has a flagged type, a text and no parent |
| PdfExtract.PageCountChecked | utils/pdf_extract.py:196-197 | block lists and page images of different counts always raise, and with equal counts the count error never occurs |
| PdfExtract.PagesNeverMismatch | utils/pdf_extract.py:196-198 | walking pages never raises the count error itself |
| PdfExtract.Candidates | utils/pdf_extract.py:217-237 | every block the containment filter keeps has no flagged parent and a flagged type |
| PdfExtract.CandidatesAtKept | utils/pdf_extract.py:217-237 | the k-th kept block is the block at the k-th position the filter passes |
| PdfExtract.KeptIndicesSpec | utils/pdf_extract.py:217-237 | the kept positions ascend, and every position whose block passes the filter is among them |
| PdfExtract.CandidatesComplete | utils/pdf_extract.py:217-237 | no block that passes the filter is left out |
| PdfExtract.PartsAreCandidates | utils/pdf_extract.py:217-271 | a page gives one part per kept block, in block order, with that block's layout and the joined texts of its walk |
| PdfExtract.ParentsKnown | utils/pdf_extract.py:220-221 | every recorded parent is a block id of the page, so the parent lookup never fails |
| PdfExtract.BlockStepsAfterFailure | utils/pdf_extract.py:217-271 | once a block raises, the page raises the same error |
| PdfExtract.PagesAfterFailure | utils/pdf_extract.py:196-271 | once the first n pages raise an error e, the first m >= n pages raise that same e |
| PdfExtract.GatherBlockPart | utils/pdf_extract.py:218-271 | one pass of the block loop does what the block step specifies |
| PdfExtract.GatherPageParts | utils/pdf_extract.py:199-271 | the body of the page loop gives exactly the page's specified parts and counters |
| PdfExtract.GatherPdfParts | utils/pdf_extract.py:192-272 | `gather_pdf_parts` gives exactly the specified document: parts, or the first error, with the count check after the shorter list runs out |
| PromptUtils.FixJson | utils/prompt_utils.py:50-51 | the rewrite never shortens the text |
| PromptUtils.FixJsonRoundTrip | utils/prompt_utils.py:50-51 | undoing the doubled backslashes gives the original text back |
| PromptUtils.FixJsonIdentity | utils/prompt_utils.py:50-51 | the text is unchanged exactly when every backslash in it is followed by a double quote |
| PromptUtils.Parse | utils/prompt_utils.py:54-70 | a plain type gets the text as it is; a model type repairs the text only when `json.loads` rejects it, and succeeds exactly when `parse_raw` accepts the text it was given |
| PromptUtils.ParseRepairsOnlyWhenNeeded | utils/prompt_utils.py:56-62 | text that `json.loads` accepts, or that has no bare backslash, reaches `parse_raw` untouched |
| PromptUtils.ExecutionState.AddError | utils/prompt_utils.py:112-113 | one more error, same context |
| PromptUtils.ExecutionState.UpdateContext | utils/prompt_utils.py:115-116 | the new context, same error count |
| PromptUtils.Retry | utils/prompt_utils.py:138-146 | failure is always "too many errors"; it fails once the error count has reached `max_retry`; a success ends with a count between the starting count and `max_retry` |
| PromptUtils.RetrySucceedsIff | utils/prompt_utils.py:139-146 | the wrapped step succeeds exactly when one of its allowed attempts succeeds |
| PromptUtils.RetryFirstSuccess | utils/prompt_utils.py:139-145 | a success is the first successful attempt: the attempts before it failed, and one error was counted for each |
| PromptUtils.RunWrapped | utils/prompt_utils.py:138-146 | the retry loop computes exactly the wrapped step |
| PromptUtils.RunSteps | utils/prompt_utils.py:189-190 | after n steps there is a last result exactly when n > 0, the error count never goes down, and the only failure is "too many errors" |
| PromptUtils.Call | utils/prompt_utils.py:186-191 | a tactic without steps fails on the unbound result, and only such a tactic does; with steps, the only failure is "too many errors" |
| PromptUtils.RunStepsAfterFailure | utils/prompt_utils.py:189-190 | once a step fails, the later steps are never run |
| PromptUtils.CallTactic | utils/prompt_utils.py:186-191 | the step loop computes exactly the tactic's call |
| PromptUtils.SharedBudget | utils/prompt_utils.py:139 | when all steps allow m errors, the errors of all steps together stay below m in a run that gets through |
| PromptUtils.TacticBuilder.constructor | utils/prompt_utils.py:202-208 | no names and no steps |
| PromptUtils.TacticBuilder.AddTypedPrompt | utils/prompt_utils.py:210-223 | a new name is registered with one more step; a name already there is refused and nothing changes |
| PromptUtils.TacticBuilder.Build | utils/prompt_utils.py:254-259 | the tactic holds a copy of the current steps |
| VoiceUtils.LastIndexFrom | utils/voice_utils.py:18 | the search finds the rightmost occurrence at or before a position, or reports that there is none |
| VoiceUtils.LastIndex | utils/voice_utils.py:18 | where `rsplit(sep, 1)` cuts: the last occurrence of the separator, or none |
| VoiceUtils.BestEndSpec | utils/voice_utils.py:17-20 | the longest candidate ends just after the separator occurrence that ends furthest right, or there is none |
| VoiceUtils.SplitText | utils/voice_utils.py:13-24 | the split finishes exactly when `max_length` ≥ 1 and, if the empty separator is listed, the text is shorter than `max_length` |
| VoiceUtils.CutPosition | utils/voice_utils.py:17-22 | every cut falls between 1 and `max_length`, so the text always shrinks |
| VoiceUtils.SplitConcat | utils/voice_utils.py:13-24 | concatenating the pieces gives the text back |
| VoiceUtils.SplitBounds | utils/voice_utils.py:13-24 | every piece is at most `max_length` long and the last one is shorter |
| VoiceUtils.FirstCut | utils/voice_utils.py:17-24 | the first piece of a long text ends just after the rightmost-ending separator in the window, or is a full window when there is none |
| VoiceUtils.ShortTextWhole | utils/voice_utils.py:14-15 | a text shorter than `max_length` is its own single piece |
| VoiceUtils.TextToPiecesTotal | utils/voice_utils.py:27-34 | with the callers' separators and length, the split always finishes, loses nothing and keeps each piece within 300 characters |
| ArxivUtils.SplitOn | utils/arxiv_utils.py:148 | `split` gives at least one segment, and no segment holds the separator |
| ArxivUtils.SplitExtendLast | utils/arxiv_utils.py:148 | text without the separator, appended to the string, extends only the last segment |
| ArxivUtils.SplitJoin | utils/arxiv_utils.py:148 | joining the segments gives the string back |
| ArxivUtils.ToArxivId | utils/arxiv_utils.py:147-151 | an id has no slash |
| ArxivUtils.NoIdIffOnlySlashes | utils/arxiv_utils.py:148 | every segment is empty exactly when the URL holds only slashes |
| ArxivUtils.ToArxivIdFails | utils/arxiv_utils.py:148 | the id lookup raises exactly for a URL made only of slashes, the empty URL included |
| ArxivUtils.TrailingSlashIgnored | utils/arxiv_utils.py:148 | a trailing slash does not change the id |
| ArxivUtils.IdIsLastSegment | utils/arxiv_utils.py:147-151 | the id is the last path segment, with exactly one ".pdf" removed |
| ArxivUtils.ShortId | utils/arxiv_utils.py:104-106 | a short id has no slash |
| ArxivUtils.ShortIdCases | utils/arxiv_utils.py:104-106 | the short id is what follows the last slash, or the whole id when it has none |
| ArxivUtils.OverlayLastWins | utils/arxiv_utils.py:24-26 | each key written holds the last item written under it |
| ArxivUtils.OverlayUntouched | utils/arxiv_utils.py:24-26 | keys no item is written under keep their entries, and absent keys stay absent |
| ArxivUtils.DictDB.constructor | utils/arxiv_utils.py:20-22 | an empty dictionary with the given key function |
| ArxivUtils.DictDB.Update | utils/arxiv_utils.py:24-26 | the dictionary afterwards is the old one with each item stored under its key, in order |
| ArxivUtils.Yielded | utils/arxiv_utils.py:115-125 | the yielded results are a prefix of the search results, none of them stops, and the next result stops |
| ArxivUtils.YieldedAt | utils/arxiv_utils.py:119-125 | if the first i results do not stop and result i does, or there is none, exactly the first i are yielded |
| ArxivUtils.IterPerCategory | utils/arxiv_utils.py:115-125 | the generator loop with its `break` yields exactly that prefix |
| ArxivUtils.StopYieldsNewer | utils/arxiv_utils.py:119-133 | on newest-first results, the update-time stop yields exactly the results updated after the limit |
| ArxivUtils.NoneNewer | utils/arxiv_utils.py:132-133 | when nothing was updated after the limit, nothing is newer |
| ArxivUtils.FromArxivUrl | utils/arxiv_utils.py:153-161 | the lookup succeeds exactly when the id is found and the search gives exactly one result, and then returns that result |
| ChatServer.ConnectedConsistent | llm_clis/chat_store/server.py:116-119 | connecting keeps every socket's recorded room holding the socket, and leaves other rooms alone |
| ChatServer.ConnectKeepsSync | llm_clis/chat_store/server.py:116-119 | connecting a socket not connected elsewhere keeps the two dictionaries in step both ways |
| ChatServer.DoubleConnectBreaksSync | llm_clis/chat_store/server.py:116-119 | a socket connected to a second room stays in the first room's set |
| ChatServer.DisconnectedConsistent | llm_clis/chat_store/server.py:121-126 | disconnecting removes the socket, drops its room's entry when the room becomes empty, and leaves the other rooms and members alone |
| ChatServer.DisconnectKeepsSync | llm_clis/chat_store/server.py:121-126 | disconnecting keeps the dictionaries in step and removes the socket from every room |
| ChatServer.ConnectThenDisconnect | llm_clis/chat_store/server.py:116-126 | a new socket that connects and then disconnects leaves both dictionaries as they were |
| ChatServer.ConnectionManager.constructor | llm_clis/chat_store/server.py:112-114 | both dictionaries start empty |
| ChatServer.ConnectionManager.Connect | llm_clis/chat_store/server.py:116-119 | the socket joins the room's set and the room is recorded for it |
| ChatServer.ConnectionManager.Disconnect | llm_clis/chat_store/server.py:121-126 | it fails exactly for a socket not connected now (never connected, or already disconnected), changing nothing then; otherwise the socket leaves both dictionaries |
| ChatServer.ConnectionManager.Broadcast | llm_clis/chat_store/server.py:128-131 | one send to each member of the room that is not excluded, none twice; reading an unknown room gives it an empty entry |
| RecommendModels.PriorityLessOrder | voice_browser/recommend_models.py:59-61 | priority comparison is a strict total order on the (play, group, recommendation) tuples |
| RecommendModels.HashCoarserThanEquality | voice_browser/recommend_models.py:52-64 | equal items hash alike, but the same item at other indices is a different key with the same hash |
| RecommendModels.Get | voice_browser/recommend_models.py:76 | a lookup finds nothing exactly for an absent key, and otherwise finds an entry stored under that key |
| RecommendModels.GetAt | voice_browser/recommend_models.py:76 | with distinct keys, a lookup finds the entry stored under the key |
| RecommendModels.Set | voice_browser/recommend_models.py:80 | dictionary assignment; SetSpec states how it keeps the order and sets the key |
| RecommendModels.Update | voice_browser/recommend_models.py:78-85 | `RecommendState.update`; UpdateSpec states what it sets and keeps |
| RecommendModels.SetSpec | voice_browser/recommend_models.py:80 | assignment keeps the keys distinct and their order (a new key goes last), sets the key and leaves the other keys alone |
| RecommendModels.UpdateSpec | voice_browser/recommend_models.py:78-85 | `update` sets one waiting entry and keeps every other entry, the current item and the history |
| RecommendToy.InitialState | voice_browser/recommend_models_test.py:9-19 | the first item is "0_0_0_<text>" with all indices 0, with an empty history and an empty waiting list |
| RecommendToy.SelectedItemsSpec | voice_browser/recommend_models_test.py:22-26 | exactly the waiting items in the selected state |
| RecommendToy.FirstMinSpec | voice_browser/recommend_models_test.py:27-29 | the first item after a stable sort by priority: least priority, and ahead of every other item with that priority |
| RecommendToy.FirstMaxSpec | voice_browser/recommend_models_test.py:76-78 | `max` by priority: greatest priority, and the first of those with it |
| RecommendToy.RemoveKeyAt | voice_browser/recommend_models_test.py:33-37 | the filtering comprehension removes exactly the one entry for the next item |
| RecommendToy.RemoveKeyAbsent | voice_browser/recommend_models_test.py:33-37 | filtering out an absent key keeps the list |
| RecommendToy.FromPairsSpec | voice_browser/recommend_models_test.py:51-65 | a dictionary display has distinct keys, each holding the value of its last pair |
| RecommendToy.FromPairsPrefix | voice_browser/recommend_models_test.py:51-65 | later pairs never move the keys already inserted |
| RecommendToy.LastValueIsGet | voice_browser/recommend_models_test.py:51-65 | with distinct keys, the value of the last pair for a key is what a lookup finds |
| RecommendToy.MergeSpec | voice_browser/recommend_models_test.py:51-65 | in `{a: x, b: y, **old}`, a and b come first, and old's entries win on equal keys |
| RecommendToy.NextState | voice_browser/recommend_models_test.py:21-66 | `next_state`; NextStateSelected, NextStateUnselected, OpenWhenEmpty, PlayOnly and NextStateDistinct state what each branch gives |
| RecommendToy.NextStateSelected | voice_browser/recommend_models_test.py:22-38 | with a selected item waiting, the next item is a selected one of least priority, and every selected entry before it in dictionary order has a higher priority; only its entry is removed; the old item joins the history |
| RecommendToy.SelectedPrefix | voice_browser/recommend_models_test.py:22-26 | the selected items of a prefix of the dictionary are a prefix of its selected items |
| RecommendToy.SelectedAt | voice_browser/recommend_models_test.py:22-26 | the m-th selected item is the entry with exactly m selected entries before it |
| RecommendToy.NextStateUnselected | voice_browser/recommend_models_test.py:40-66 | otherwise the next item is "<n>_0_0_<text>" with n = old play index + 1; the two new group-1 entries come first; existing entries keep their state |
| RecommendToy.NextStateDistinct | voice_browser/recommend_models_test.py:21-66 | every step keeps the waiting keys distinct and adds exactly the old current item to the history |
| RecommendToy.MarkStep | voice_browser/recommend_models_test.py:75-79 | the marking inside `test_foo`'s loop; MarkStepKeeps and MarkStepSelects state it |
| RecommendToy.MarkStepKeeps | voice_browser/recommend_models_test.py:75-79 | marking keeps the current item, the history and the waiting keys in their order |
| RecommendToy.MarkStepSelects | voice_browser/recommend_models_test.py:75-79 | on every fourth step with items waiting, the first item of greatest priority becomes selected and nothing else changes; otherwise the state is unchanged |
| RecommendToy.OpenWhenEmpty | voice_browser/recommend_models_test.py:40-66 | with nothing waiting, the next state is the fresh group-0 item, the old item appended to the history, and exactly the two new entries waiting |
| RecommendToy.PlayOnly | voice_browser/recommend_models_test.py:22-38 | a lone selected entry is played next and leaves nothing waiting |
| RecommendToy.Drive | voice_browser/recommend_models_test.py:73-79 | after n steps of the test's loop the history holds n items and the waiting keys are still distinct |
| RecommendToy.DriveOpening | voice_browser/recommend_models_test.py:70-80 | the test's first four current items are 1_0_0, 1_1_0, 1_1_1 and 2_0_0 |
| RecommendToy.TranscriptAt | voice_browser/recommend_models_test.py:80 | printed line j is the current item after step j + 1 |
| RecommendToy.TestFoo | voice_browser/recommend_models_test.py:70-80 | the loop reaches the specified state after 20 steps and prints the specified transcript |
| DateFormat.Ungroup | download_today_arxiv_summary.py:10-12 | dropping underscores leaves digits only, and digits alone are kept as they are |
| DateFormat.UngroupAppend | download_today_arxiv_summary.py:10-12 | dropping underscores works piece by piece over a concatenation |
| DateFormat.UngroupDropsUnderscore | download_today_arxiv_summary.py:10-12 | an underscore between two runs of digits is dropped and nothing else is |
| DateFormat.GroupedUnderscore | download_today_arxiv_summary.py:10-12 | two runs of digits joined by one underscore are a numeral `int()` accepts |
| DateFormat.PyIntGrouped | download_today_arxiv_summary.py:10-12 | `int()` reads digits grouped by an underscore as the digits run together, so `int("2_24")` is 224 |
| DateFormat.PyInt | download_today_arxiv_summary.py:10-12 | `int()` rejects text that is empty once white space is stripped from both ends |
| DateFormat.PyIntDigits | download_today_arxiv_summary.py:10-12 | `int()` reads a string of digits as the number it denotes, leading zeros included |
| DateFormat.PyIntRejects | download_today_arxiv_summary.py:10-12 | `int()` rejects blank text and a sign alone |
| DateFormat.PyIntSigned | download_today_arxiv_summary.py:10-12 | `int()` reads a sign followed by digits |
| DateFormat.YmdFormat | download_today_arxiv_summary.py:8-13 | a length other than 8 fails the assertion; otherwise it succeeds exactly when the three slices are integers forming a real date, and returns that date |
| DateFormat.YmdOfDigits | download_today_arxiv_summary.py:8-13 | on eight digits the fields are read as plain decimal numbers |
| DateFormat.DatedirName | download_today_arxiv_summary.py:21-23 | `datedir_name`; DatedirFields and DatedirRoundTrip state its digits and that `ymd_format` reads it back |
| DateFormat.DatedirFields | download_today_arxiv_summary.py:21-23 | a valid date's directory name is eight digits whose slices 0-4, 4-6 and 6-8 read as the year, month and day |
| DateFormat.DatedirRoundTrip | download_today_arxiv_summary.py:8-23 | a valid date's directory name is eight digits, and reading it back gives the date |
| DateFormat.YmdDigitsRoundTrip | download_today_arxiv_summary.py:8-23 | an all-digit argument that is accepted is the name of its own directory |
| DateFormat.GroupedFields | download_today_arxiv_summary.py:10-12 | the three slices of a year written as one digit, an underscore and two digits, then month and day, read as those numbers |
| DateFormat.GroupedYearAccepted | download_today_arxiv_summary.py:8-23 | such an argument, "2_240101" say, is accepted as the date of the year 224, and its directory is not named after the argument |
| DateFormat.SignedYearAccepted | download_today_arxiv_summary.py:9-13 | a signed year such as "+0240101" is accepted, and the directory then named differs from the argument |

## Left out

- The Textract client, the `pdfseparate` subprocess, the page-limit check and on-disk caching
  (utils/pdf_extract.py:132-190). These are foreign services, processes and file I/O.
- PIL cropping and saving, and cv2 plotting. A figure part records the pixel box it was
  cropped with instead of the image. Saving a part gives the dictionary only.
- `extract_pdf_data_to_md`, the markdown writer. It is file output with no logic beyond
  printing.
- Float geometry: box coordinates are reals, so float rounding and the truncation to pixels
  are not modelled.
- PdfText.GatherTexts: the recursion limit is a depth budget, so the exact depth at which
  Python raises, and the frames the rest of the program uses, are not modelled.
- pydantic, jinja2 and openai in prompt_utils: model construction, templates, the API call,
  `Adapter` and `type_to_preview`. `json.loads`, `parse_raw` and a step's base function are
  parameters. The base function depends on the context and on the attempt number; whatever
  else varies between attempts is not modelled.
- PromptUtils.Parse: the exception messages are reduced to the kind of error and the text
  last tried.
- PromptUtils.TacticBuilder.AddTypedPrompt: the context type built with `create_model` is
  represented by the list of names. A refused name gives `false` where the source raises
  AssertionError.
- `TacticBuilder.show_typed_prompts` and `get_current_context_type` (printing and type
  reflection), and `call_gpt` (a network call).
- VoiceUtils.SplitText: the interpreter's recursion limit for texts of more than about a
  thousand pieces is not modelled. The VoiceVox HTTP calls and pydub audio concatenation are
  network and audio I/O.
- The arXiv client, the yaml category file loaded at import, pydantic models and
  `UpdateTimeStopCondition.from_datefile`/`save_datefile` (file I/O). The search is a
  parameter, and update times are integers, seconds since an epoch.
- ArxivUtils.IterPerCategory: the generator is modelled by the sequence it yields. Laziness,
  and the delay between requests, are not modelled.
- Everything in server.py besides `ConnectionManager`: the FastAPI endpoints, the database
  models, websocket accept and send (asynchronous network I/O), and the page template.
- ChatServer.ConnectionManager.Broadcast: a send is recorded as the socket it goes to. The
  order follows set iteration, which the model leaves open. Interleaving with other coroutines
  is not modelled.
- ChatServer.ConnectionManager.Disconnect: a socket not connected (never connected, or already
  disconnected) gives `false` where the source raises KeyError.
- RecommendModels: an item is a string, as in the recommender the test drives. The database
  classes of recommend_models.py are not modelled.
- DateFormat.PyInt: `int()` is modelled for ASCII text only. Non-ASCII digits and white space
  are not modelled.
- DateFormat.YmdFormat: the result is the date, standing for midnight UTC of that day. The
  `assert` is modelled as always enabled.
- DateFormat.DatedirName: the date is taken as already in UTC, so `astimezone` is not
  modelled. The year is padded to four digits, although some C libraries print years below
  1000 without padding.
- `lastweek`, `parse_args` and `main` of download_today_arxiv_summary.py: they read the clock,
  handle command-line arguments and write files.
