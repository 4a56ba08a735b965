# SnapHelp text and collection logic in Dafny

SnapHelp is a helper for the card game Marvel Snap. It captures the board, crops it into five
sections, asks a vision model to describe each one, and asks a chat model for advice. Around
those calls sits a small amount of deterministic logic, and this project models it and proves
its properties:

- **Ability file.** `load_card_abilities` reads `card_abilities.txt`, one `Card Name: ability`
  entry per line, into a name-to-ability map.
- **Roster reconciliation.** Two variants report which cards of the full roster `allcards.txt`
  have no ability entry:
  - `card_finder.py` compares the trimmed roster set with the exact ability keys;
  - the older script `cardFInder.py` keeps the roster as a list and tests each name as a
    substring of the raw ability text.
- **Game state.** Three parts of `get_all_descriptions` and `GameState.to_prompt`:
  - detecting known cards in a section's description;
  - reassembling the per-section results of the concurrent requests in a fixed section order,
    and taking the union of the detected cards;
  - rendering the game state as a prompt.

Modules, one per source file plus two shared ones:

| module | file | models |
|---|---|---|
| `Text` | `text.dfy` | The Python string built-ins the scripts use. `strip` follows Python's exact `str.isspace` set; `lower` and `capitalize` cover ASCII letters; `in` is the substring test, `join` and `sorted` are modelled over strings. |
| `Files` | `files.dfy` | A text file as the scripts see it (`Missing`, or the lines that iterating over the handle yields, line terminators kept), the two errors the loaders raise, and `Result`/`Option`. |
| `ReadCardAbilities` | `read_card_abilities.dfy` | `read_card_abilities.py`. The loop is an imperative method, proved equal to a recursive specification whose properties are lemmas. |
| `CardFinder` | `card_finder.dfy` | `card_finder.py` |
| `CardFinderScript` | `card_finder_script.dfy` | `cardFInder.py` |
| `GptInteraction` | `gpt_interaction.dfy` | The section tables, `extract_known_cards`, the reassembly loops of `get_all_descriptions` (imperative methods), and `GameState.to_prompt`. |

Two things stand in for what the code cannot be given directly:

- **Reading a file.** It is the `TextFile` value the function receives. `read()` is the
  concatenation of the lines.
- **The thread pool.** It is a map from each section to its outcome: `Some(text)`, or `None`
  when the request raised. A completion order that is any permutation of the sections stands
  in for `as_completed`.

## Model

| member | source | states |
|---|---|---|
| `ReadCardAbilities.LoadCardAbilities` | read_card_abilities.py:23-34 | The loop's result is exactly the load specification: a missing path is `FileNotFound` before anything is read, and otherwise the dictionary is filled line by line. |
| `ReadCardAbilities.CardAbilities` | read_card_abilities.py:24-34 | A missing path fails with `FileNotFound`. A successful load has no more keys than the file has non-blank lines. |
| `ReadCardAbilities.SplitOnce` | read_card_abilities.py:31 | `split(":", 1)` gives two parts exactly when the line holds a colon. The parts rebuild the line around the first colon, and the first part holds no colon. Without a colon it gives the whole line. |
| `ReadCardAbilities.SplitOnceAtFirst` | read_card_abilities.py:31 | Any way of writing a line as `a + ":" + b` with no colon in `a` is the split. So the ability text may itself contain colons. |
| `ReadCardAbilities.ParseFailsIffMissingColon` | read_card_abilities.py:30-31 | Loading fails exactly when some non-blank line has no colon, and then only with the unpacking error. |
| `ReadCardAbilities.BlankLineIgnored` | read_card_abilities.py:30 | Inserting a whitespace-only line anywhere leaves the result unchanged. |
| `ReadCardAbilities.ParseFromAppend` | read_card_abilities.py:29-32 | Loading two stretches of lines is loading the first and then continuing from its dictionary with the second; an error in the first stops the load. |
| `ReadCardAbilities.ParseFromKeys` | read_card_abilities.py:29-32 | From any starting dictionary, the loop adds exactly the keys of the non-blank lines and leaves every other entry unchanged. |
| `ReadCardAbilities.ParseFromLast` | read_card_abilities.py:32 | A key defined by several lines ends up bound to the value of the last of them. |
| `ReadCardAbilities.ParseResult` | read_card_abilities.py:28-32 | A successful load has exactly the keys of its non-blank lines. Each key is the trimmed text before the first colon of some line. Each value is the trimmed rest of the last line defining that key. |
| `ReadCardAbilities.LineKeysBound` | read_card_abilities.py:28-32 | There are no more distinct keys than non-blank lines. |
| `ReadCardAbilities.KeyAndValueInLine` | read_card_abilities.py:31-32 | Both the key and the value of a line are substrings of that line. |
| `CardFinder.LoadCardNames` | card_finder.py:13-18 | A missing roster raises `FileNotFound`, and an existing roster always loads. The result is exactly the set of trimmed non-blank lines, none of them empty or with whitespace at either end. |
| `CardFinder.FindMissingCards` | card_finder.py:21-25 | The roster is loaded first, and a failure in either load propagates. The result is the roster names that are not ability keys: a subset of the roster, disjoint from the keys, and holding every roster name without a key. |
| `CardFinder.NoneMissingWhenAllListed` | card_finder.py:25 | When every roster name is an ability key, nothing is reported. |
| `CardFinder.MalformedAbilitiesFailFind` | card_finder.py:24 | An ability line without a colon makes the reconciliation fail with the unpacking error. |
| `CardFinderScript.Roster` | cardFInder.py:3 | The roster list has one entry per non-blank line, each trimmed, non-empty and with no whitespace at either end. |
| `CardFinderScript.RosterAppend` | cardFInder.py:3 | The roster of two stretches of lines is their rosters concatenated, so file order and repeated names are kept. |
| `CardFinderScript.RosterElementsAreCardNames` | cardFInder.py:3 | The list holds exactly the names that `load_card_names` returns as a set. |
| `CardFinderScript.MissingFrom` | cardFInder.py:10 | The filter keeps a subsequence of the roster. A roster card is in it exactly when it is not a substring of the ability text, and then as many times as it occurs in the roster. |
| `CardFinderScript.FindMissingCards` | cardFInder.py:1-10 | The script succeeds exactly when both files exist, and a line without a colon is no error here. The result is the roster cards absent from the raw text, in roster order, each repeated as often as in the roster. |
| `CardFinderScript.KeysOccurInText` | cardFInder.py:6-7 | Every key the ability loader produces is a substring of the raw file text. |
| `CardFinderScript.SubstringCheckReportsSubset` | cardFInder.py:10 | When the ability file loads, every card the script reports is also reported by `find_missing_cards` in card_finder.py: the substring test is the weaker check. |
| `CardFinderScript.NameInsideAbilityTextHidden` | cardFInder.py:10 | Suppose a roster card's name appears only as another card's ability text (a roster `Hulk` against the file line `Ox:Hulk`). Then the exact-key check reports it and the substring check does not. |
| `GptInteraction.SectionTablesAgree` | gpt_interaction.py:16-38 | The five sections are distinct, each has an output file, and no two sections share an output file. |
| `GptInteraction.ExtractKnownCards` | gpt_interaction.py:115-118 | The result is a subset of the names. A name is in it exactly when its lower-case form is a substring of the lower-cased text. |
| `GptInteraction.ExactMentionDetected` | gpt_interaction.py:115-118 | A card named verbatim in the text is always detected. |
| `GptInteraction.DetectionGrowsWithText` | gpt_interaction.py:115-118 | Anything detected in a text is detected in every text containing it, so per-section detection finds nothing that the combined text would not. |
| `GptInteraction.CollectDescriptions` | gpt_interaction.py:161-176 | After the `as_completed` loop the dictionary holds exactly the sections whose request succeeded, with their text unchanged, whatever order the requests finished in. |
| `GptInteraction.PresentSections` | gpt_interaction.py:179-183 | The sections a dictionary holds, kept in `SECTION_ORDER` order: a subsequence of the order, with membership exactly the order's entries present. |
| `GptInteraction.OrderDescriptions` | gpt_interaction.py:179-183 | The ordered dictionary's entries are the present sections in `SECTION_ORDER` order, each with its unchanged text. |
| `GptInteraction.DescriptionTexts` | gpt_interaction.py:186 | `ordered_descriptions.values()` is each present section's text, in section order. |
| `GptInteraction.ReferencedCards` | gpt_interaction.py:185-187 | The `update` loop yields a subset of the ability keys: exactly the cards detected in some text. |
| `GptInteraction.ReferencedOverSections` | gpt_interaction.py:185-187 | Detecting over the ordered list of texts finds exactly the cards detected in some stored section. |
| `GptInteraction.GetAllDescriptions` | gpt_interaction.py:155-189 | An ability-file error propagates. Otherwise the sections are exactly the successful ones with unchanged text. The referenced cards are a subset of the ability keys: exactly those detected in some section. |
| `GptInteraction.SectionBlocks` | gpt_interaction.py:49-53 | One block per present section, in `SECTION_ORDER` order: the capitalised name, `":\n"`, then the text. |
| `GptInteraction.AbilityLines` | gpt_interaction.py:56-59 | One line per referenced card, in sorted card order, as `card: ability` or `card: Ability unknown`. |
| `GptInteraction.AbilityLinesSpec` | gpt_interaction.py:56-59 | Each referenced card gets exactly one line, which gives its ability or the placeholder, and the lines are in strictly increasing card order. |
| `GptInteraction.AbilityText` | gpt_interaction.py:55-62 | The reference block is empty exactly when no card was referenced. Otherwise it is exactly `Card Ability Reference:` on its own line, followed by the reference lines in sorted card order, one per line, so it contains every referenced card's reference line. |
| `GptInteraction.NonEmpty` | gpt_interaction.py:68 | The filter keeps a subsequence of the parts, none of them empty. |
| `GptInteraction.NonEmptyKeepsOthers` | gpt_interaction.py:68 | The filter drops only the empty parts: every non-empty part is kept as often as it occurs. |
| `GptInteraction.NonEmptyParts` | gpt_interaction.py:64-68 | The filter keeps the header, the section text if there is any and the reference block if there is one. The `""` appended as a separator never survives. |
| `GptInteraction.GameState.ToPrompt` | gpt_interaction.py:48-68 | The prompt is the header line, then the stripped section text on its own line when present, then the reference block on the very next line. No blank line separates them, and only trailing whitespace of the whole is removed, so the prompt always begins with `Current game state:`. |
| `GptInteraction.ToPromptHasReference` | gpt_interaction.py:60-68 | When some card was referenced, the prompt contains the `Card Ability Reference:` heading. |
| `Text.StripSpec` | read_card_abilities.py:30-32 | `strip()` returns a slice of its input, surrounded only by whitespace and with no whitespace at either end. |
| `Text.LowerPreservesContains` | gpt_interaction.py:117-118 | A substring stays a substring after both sides are lower-cased. |
| `Text.Sorted` | gpt_interaction.py:58 | `sorted` of a set of strings lists every element once, in strictly increasing code-point order. |

## Left out

- Screenshot capture, cropping, the coordinate-finder GUI, the advice request and the
  interactive entry point. These are operating-system calls, image processing with floating
  point, and network requests, with no logic of their own to state.
- In `get_all_descriptions`, the following are left out:
  - creating the chat client and checking the API key;
  - base64 encoding of the images;
  - the chat request;
  - the thread pool.

  Each request's outcome and the order the requests finish in are parameters instead.
  `PROMPTS` is request text only, so it is not part of this model.
- The console output and the file writes:
  - each description to its `SECTION_OUTPUTS` file;
  - the combined prompt to `bigprompt.txt`.

  A failing write inside the `as_completed` loop is caught with the request errors. The
  description has already been stored by then, so the model, which stores every successful
  description, still matches.
- `GptInteraction.GetAllDescriptions` renders the combined prompt only to write it to a file.
  The rendering is modelled by `GameState.ToPrompt` and its lemmas.
- Case mapping covers ASCII letters only. `sorted` is code-point order, which matches
  Python's string ordering. Text decoding (UTF-8, newline translation) is not modelled: a
  file is the sequence of its lines.
- Directories passed as paths and permission errors are not modelled. A file either exists
  with some lines or is missing.
- `GptInteraction.GetAllDescriptions` scans each section's description separately, as the
  code does, rather than the combined text. `GptInteraction.DetectionGrowsWithText` relates
  the two: a per-section scan never finds a card that a combined scan would miss.
- `GptInteraction.ToPromptHasReference` states the heading's presence in one direction only.
  A section description may itself contain the words `Card Ability Reference:`, so the
  heading's absence from the prompt cannot follow from an empty reference set. With no
  referenced cards, `GptInteraction.GameState.ToPrompt` shows that the prompt is just the header
  and the section text.
