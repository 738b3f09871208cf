# Telegram forwarder: a verified model of its core

The Telegram forwarder watches a list of source chats and forwards every new
text message to one destination channel. An optional keyword list restricts
forwarding to messages that contain one of the keywords, matched without
regard to case. Each source has a watermark: the highest message id it has
seen. At startup every source is resolved and its watermark is set to the
id of its newest message, or 0 for an empty chat. After that the forwarder
polls forever. In each cycle it fetches the messages above each source's
watermark and walks them oldest first. It sends the text messages the
filter accepts. A failed send is reported, and the walk goes on. The
watermark then absorbs every fetched id, so a message is never considered
twice.

The model covers these parts of `TelegramForwarder.py`:

- the keyword filter;
- the per-message handling and the per-source poll step;
- the poll cycle;
- the setup that seeds the watermarks;
- the two ways `main` turns the configured keyword text into a list.

The files are:

- `wrappers.dfy`: `Option` and `Result`.
- `text.dfy`: the parts of Python's `str` the core uses, each with its
  properties proved:
  - `strip`, with Python's whitespace set;
  - `lower`;
  - substring containment (`in`);
  - `split` on one character, with `Join` as its inverse.
- `keyword_filter.dfy`: the filter, modelled as follows.
  - `MatchKeyword` is the search loop, proved against the specification
    function `FirstMatch`.
  - `Classify` is the whole decision: forward all, matched keyword, or no
    match.
- `filter_examples.dfy`: worked examples of the filter.
- `keyword_parsing.dfy`: the process-mode and interactive-mode parsing of
  the keyword setting.
- `forwarding.dfy`: the poll phase, modelled as follows.
  - The messages and send attempts are datatypes.
  - The specification functions are `Deliveries`, `Advance` and
    `CycleMarks`.
  - The class `Forwarder` holds the watermark dictionary and updates it in
    place. Its methods are `PollSource` (one source) and `PollCycle` (all
    sources in order).
- `delivery_properties.dfy`: what a poll promises, meaning which messages
  are attempted, in what order, and how the watermarks move.
- `poll_examples.dfy`: a worked poll of one source, with a failed send.
- `setup.dfy`: the seeding of the watermarks, as the function `Seed` and
  the loop `SeedWatermarks`. It also holds the whole run as the function
  `Run` and the method `ForwardMessagesToChannel`.

The messaging client is not part of this model. Each of its answers is an
input:

- what a source lookup returned or raised;
- what each fetch returned, newest first, as the client returns it;
- whether each send succeeded: one flag per fetched message, in processing
  order, consulted only when a send is attempted.

Two points about blank keywords and the watermark:

- **Blank keyword lists.** The filter (`TelegramForwarder.py:103`) forwards
  everything only for `[]` and `[""]`. Any other list of blank entries
  matches nothing.
  - In process mode this cannot arise, because parsing drops blank entries
    (`ProcessModeForwardsAllIffBlank`).
  - In interactive mode the prompt (`TelegramForwarder.py:217`) says to
    "leave blank to forward every message". An empty answer does forward
    everything, since it splits to `[""]`. An answer of a single space,
    though, yields `[" "]`, and the forwarder then forwards no message at
    all (`InteractiveBlankAnswerForwardsNothing`).
- **How the watermark advances.** The code raises it message by message
  (`TelegramForwarder.py:128`). The result is the maximum of the old
  watermark and every fetched id (`AdvanceIsMax`), whatever the order of
  the walk (`AdvanceOrderFree`). So it equals a single update after the
  batch.

## Model

| member | source | states |
|---|---|---|
| Text.LowerSpec | TelegramForwarder.py:106 | lowering keeps the length, maps `A`-`Z` to `a`-`z`, leaves every other character alone and is idempotent |
| Text.TrimStartSpec | TelegramForwarder.py:106-107 | the left trim is a suffix, drops only whitespace and stops at a non-space character |
| Text.TrimEndSpec | TelegramForwarder.py:106-107 | the right trim is a prefix, drops only whitespace and stops at a non-space character |
| Text.StripIsSlice | TelegramForwarder.py:106-107 | `strip` returns a contiguous slice of its input whose outside is all whitespace and whose ends are not whitespace |
| Text.StripEmptyIffBlank | TelegramForwarder.py:106 | `keyword.strip()` is empty exactly when the keyword is all whitespace (the truth test on line 106) |
| Text.StripIdempotent | TelegramForwarder.py:195 | stripping a stripped string changes nothing |
| Text.ContainsIsSubstring | TelegramForwarder.py:106 | `in` holds exactly when the keyword occurs at some position of the text |
| Text.SplitPiecesFree | TelegramForwarder.py:195 | no piece of `split(',')` holds a comma |
| Text.SplitJoinBack | TelegramForwarder.py:218 | joining the pieces of `split(',')` with commas gives the text back |
| Text.SplitSpec | TelegramForwarder.py:195 | `split(',')` returns at least one piece, no piece holds a comma, and joining the pieces with commas gives the input back |
| Text.SplitJoin | TelegramForwarder.py:218 | splitting comma-free pieces joined with commas gives the pieces back |
| Text.SplitNoSeparator | TelegramForwarder.py:218 | a text without a comma splits into itself alone |
| KeywordFilter.FirstHitFrom | TelegramForwarder.py:105-108 | the search from a position stops at the first keyword whose stripped, lowered form occurs in the lowered text, and no keyword before it does |
| KeywordFilter.FirstMatchIsFirstHit | TelegramForwarder.py:104-108 | no keyword is matched exactly when no non-blank keyword occurs; otherwise the result is the stripped form of the first keyword that occurs |
| KeywordFilter.MatchKeyword | TelegramForwarder.py:104-108 | the loop with its `break` returns the stripped form of the first matching keyword, or none |
| KeywordFilter.ClassifyCases | TelegramForwarder.py:103-110 | everything is forwarded exactly when the list is `[]` or `[""]`; a message is dropped exactly when neither holds and no keyword hits; a matched keyword is non-empty, stripped and the first hit |
| KeywordFilter.BlankKeywordsMatchNothing | TelegramForwarder.py:103-108 | a list other than `[]` and `[""]` whose entries are all blank matches no text |
| KeywordFilter.MatchedKeywordOccurs | TelegramForwarder.py:106-107 | a matched keyword, lowered, occurs in the lowered text |
| KeywordFilter.HitsIgnoreTextCase | TelegramForwarder.py:106 | whether a keyword hits does not depend on the case of the text |
| KeywordFilter.MatchIgnoresTextCase | TelegramForwarder.py:103-110 | the filter's decision is the same for a text and its lowered form |
| KeywordFilter.FirstHitIgnoresTextCase | TelegramForwarder.py:105-108 | the search from any position finds the same keyword in a text and in its lowered form |
| FilterExamples.ForwardAllExamples | TelegramForwarder.py:103 | `[]` and `[""]` forward `"Hello World"` |
| FilterExamples.MatchExample | TelegramForwarder.py:104-108 | keyword `world` matches `Hello World` |
| FilterExamples.CaseExample | TelegramForwarder.py:106 | keyword `hello` matches `HELLO` |
| FilterExamples.NoMatchExample | TelegramForwarder.py:104-110 | keyword `xyz` does not match `Hello World`, so nothing is forwarded |
| PollExamples.FailedKeywordHits | TelegramForwarder.py:104-108 | keyword `failed` matches `build failed` |
| PollExamples.FailedKeywordMisses | TelegramForwarder.py:104-110 | keyword `failed` does not match `all good` |
| PollExamples.FailedSendExample | TelegramForwarder.py:94-128 | from watermark 100, a fetch of 102 `all good` and 101 `build failed` (newest first), with keyword `failed`, makes one attempt: 101, reason `failed`, its failed send reported; the watermark becomes 102 |
| KeywordParsing.StrippedNonBlank | TelegramForwarder.py:195 | the comprehension keeps at most as many entries as it is given, each non-empty and stripped |
| KeywordParsing.StrippedNonBlankEmptyIffAllBlank | TelegramForwarder.py:195 | the comprehension yields nothing exactly when every piece is blank |
| KeywordParsing.StrippedNonBlankKeepsOut | TelegramForwarder.py:195 | stripping adds no character, so comma-free pieces give comma-free entries |
| KeywordParsing.StrippedNonBlankKeepsStripped | TelegramForwarder.py:195 | a list of non-empty stripped entries passes the comprehension unchanged |
| KeywordParsing.ProcessKeywords | TelegramForwarder.py:195 | every parsed keyword is non-empty, stripped and comma-free |
| KeywordParsing.NonBlankPositions | TelegramForwarder.py:195 | the positions of the non-blank pieces: every one is in range and non-blank, they strictly increase, and every non-blank piece's position is among them |
| KeywordParsing.StrippedNonBlankAppend | TelegramForwarder.py:195 | the comprehension on a concatenation is the concatenation of its results |
| KeywordParsing.StrippedNonBlankSnoc | TelegramForwarder.py:195 | one more piece adds its stripped text exactly when that is non-empty |
| KeywordParsing.StrippedNonBlankAtPositions | TelegramForwarder.py:195 | the comprehension's k-th entry is the stripped piece at the k-th non-blank position: each entry comes from a piece, every non-blank piece is kept, in the order of the pieces |
| KeywordParsing.ProcessKeywordsArePieces | TelegramForwarder.py:187-195 | process mode yields exactly the stripped non-blank comma-separated pieces of the setting, all of them and in order, the empty setting included |
| KeywordParsing.InteractiveKeywords | TelegramForwarder.py:218 | the raw split has at least one entry, the entries have no comma, and they join back to the answer |
| KeywordParsing.SplitAllBlank | TelegramForwarder.py:195 | all pieces of a split are blank exactly when the text holds only separators and whitespace |
| KeywordParsing.BlankPiecesOnlySpace | TelegramForwarder.py:195 | if all pieces are blank, the text holds only separators and whitespace |
| KeywordParsing.OnlySpaceBlankPieces | TelegramForwarder.py:218 | if the text holds only separators and whitespace, all pieces are blank |
| KeywordParsing.ProcessModeForwardsAllIffBlank | TelegramForwarder.py:187-195 | in process mode everything is forwarded exactly when the setting holds only commas and whitespace |
| KeywordParsing.ProcessKeywordsNeverBlank | TelegramForwarder.py:195 | no parsed process-mode keyword is blank |
| KeywordParsing.ProcessKeywordsRoundTrip | TelegramForwarder.py:195 | parsing the comma-join of non-empty, stripped, comma-free keywords gives them back |
| KeywordParsing.InteractiveForwardsAllIffEmpty | TelegramForwarder.py:217-218 | in interactive mode only the empty answer forwards everything |
| KeywordParsing.InteractiveBlankAnswerForwardsNothing | TelegramForwarder.py:218 | in interactive mode a non-empty answer of commas and spaces forwards no message |
| Forwarding.AdvanceIsMax | TelegramForwarder.py:128 | the advanced watermark is at least the old one and every fetched id, and equals one of them |
| Forwarding.AdvanceOrderFree | TelegramForwarder.py:96-128 | walking the batch reversed gives the same watermark as walking it as fetched |
| Forwarding.CycleMarks | TelegramForwarder.py:93-128 | a cycle keeps the set of sources with a watermark |
| Forwarding.WalkStep | TelegramForwarder.py:96-128 | walking one more message appends its send attempt and absorbs its id |
| Forwarding.CycleStep | TelegramForwarder.py:93-128 | polling one more source appends its send attempts and advances its watermark over its batch |
| Forwarding.ProcessMessage | TelegramForwarder.py:97-125 | a message without text or rejected by the filter is not sent; otherwise exactly one attempt is made, carrying the message's text and the filter's reason |
| Forwarding.Forwarder.constructor | TelegramForwarder.py:69-79 | the forwarder starts with the seeded watermark of every source |
| Forwarding.Forwarder.PollSource | TelegramForwarder.py:94-128 | the log is the send attempts of the batch walked oldest first; the source's watermark becomes the maximum of itself and every fetched id; other watermarks are unchanged |
| Forwarding.Forwarder.PollCycle | TelegramForwarder.py:93-128 | the sources are polled in the configured order; the log is their attempts in that order and the watermarks are those of `CycleMarks` |
| DeliveryProperties.DeliveriesSound | TelegramForwarder.py:96-125 | every send attempt is that of an accepted text message of the batch, with that message's own send outcome |
| DeliveryProperties.DeliveriesComplete | TelegramForwarder.py:96-125 | every accepted text message of the batch is attempted |
| DeliveryProperties.OutcomesOnlyMarkDelivery | TelegramForwarder.py:112-125 | send failures do not stop the walk: whatever the outcomes, the same messages are attempted in the same order |
| DeliveryProperties.ForwardAllSendsEveryText | TelegramForwarder.py:119-125 | with `[]` or `[""]`, every text message is sent with reason ForwardAll |
| DeliveryProperties.BlankKeywordsSendNothing | TelegramForwarder.py:103-118 | a non-forward-all list of blank keywords sends nothing |
| DeliveryProperties.DeliveriesIdsBelow | TelegramForwarder.py:96-125 | a bound on a batch's ids bounds the ids of its send attempts |
| DeliveryProperties.DeliveriesAscending | TelegramForwarder.py:96-125 | a batch of increasing ids is sent in increasing id order |
| DeliveryProperties.PollSendsInIdOrder | TelegramForwarder.py:94-96 | a fetch returned newest first is sent oldest first |
| DeliveryProperties.SeenBatchKeepsMark | TelegramForwarder.py:128 | a batch whose ids the watermark already covers leaves it unchanged |
| DeliveryProperties.FreshFetchIsDisjoint | TelegramForwarder.py:94 | a fetch above the advanced watermark shares no id with the batch already absorbed |
| DeliveryProperties.CycleMarksRise | TelegramForwarder.py:93-128 | a cycle only raises watermarks and leaves those of unpolled chats unchanged |
| DeliveryProperties.CycleMarksCover | TelegramForwarder.py:93-128 | after a cycle every polled source's watermark covers every id fetched for it |
| DeliveryProperties.CycleMarksExact | TelegramForwarder.py:93-128 | after a cycle each watermark is either unchanged or the id of a message fetched for that source, so it never exceeds what was fetched |
| DeliveryProperties.EmptyCycleIsNoOp | TelegramForwarder.py:93-128 | a cycle whose fetches are all empty sends nothing and changes no watermark |
| Setup.SeedStep | TelegramForwarder.py:71-79 | seeding one more source adds its initial mark, or its error, unless an earlier lookup failed |
| Setup.SeedFailureStops | TelegramForwarder.py:81-87 | once a lookup has failed, the seeding ends with that error |
| Setup.SeedOutcome | TelegramForwarder.py:71-87 | the seeding succeeds exactly when every lookup succeeds; a failure carries the error of the first lookup that raised |
| Setup.SeedMarks | TelegramForwarder.py:69-79 | a successful seeding has a watermark for exactly the configured sources, each its last lookup's newest id or 0 |
| Setup.SeedWatermarks | TelegramForwarder.py:71-87 | the setup loop gives the seeding, stopping at the first failed lookup |
| Setup.RunMarks | TelegramForwarder.py:91-128 | the cycles of a run keep the set of sources with a watermark |
| Setup.ForwardMessagesToChannel | TelegramForwarder.py:55-128 | the run ends when not authorized or when setup fails; otherwise it seeds the watermarks and polls the given cycles, giving `Run` |
| Setup.RunAbortsIffSetupFails | TelegramForwarder.py:56-87 | an authorized run stops in setup exactly when a call before the loop or some source lookup failed |
| Setup.RunMarksRise | TelegramForwarder.py:91-128 | over a run the watermarks only rise |
| Setup.RunMarksCover | TelegramForwarder.py:91-128 | after a run each source's watermark covers every id fetched for it in every cycle |
| Setup.RunMarksExact | TelegramForwarder.py:91-128 | after a run each watermark is either the seeded one or the id of a message fetched for that source in some cycle |

## Left out

- Sign-in (`authenticate`): the model takes its outcome as a boolean.
- Other parts of the program are not part of this model:
  - `list_chats`;
  - the credential helpers;
  - the menu of `main`;
  - the `int()` parsing of chat ids, with the crash on a malformed id.
- The client calls are inputs and not modelled. These are `get_dialogs`,
  `get_entity`, `get_input_entity`, `get_messages` and `send_message`. The
  values the client returns for the destination and the sources are not
  kept, and the destination id is the same for every send, so it is not
  recorded.
- A fetch during polling that raises ends the program in the code, since
  nothing catches it. The model treats every poll-phase fetch as
  successful.
- The endless `while True` loop and the 5-second sleep: a run is modelled
  as a finite sequence of poll cycles.
- Console output, timestamps, the chat's display name and the 50-character
  preview.
- Text.LowerSpec, Text.Lower: lower ASCII letters only. Python's `str.lower` also lowers
  other scripts and can change a string's length, and that is not
  modelled.
- Text.IsSpace: takes the whitespace set of Python's `str.isspace` as a
  fixed list of code points. It does not take it from the Unicode
  database.
