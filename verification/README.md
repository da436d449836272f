# Style catalog loader — a Dafny model

This project models the logic of a style-transfer demo front-end (`gradio_ui.py`)
that is not UI wiring:

- **The style-catalog loader** `load_styles_for_dataset`. It takes the parsed catalog, a
  JSON array of style objects. It keeps the objects whose `feature` is `AI_Art` or
  `AI_Art_Changestyle` and that have a non-empty `name`, `prompt` and `image_after.url`.
  It prefixes their image paths with the base URL. It returns the gallery samples
  `[before_url, after_url, name, feature]` sorted by `(feature, name)`, together with a
  name-keyed lookup of resolved style records. When anything in the load raises, the
  loader returns an empty list and an empty map.
- **The gallery select handler**, which reads a clicked sample's name back from the lookup.
- **The custom-prompt check** in `generate_custom`. It rejects a missing image, then an
  absent, empty or whitespace-only prompt.

Modules:

- `Wrappers`: `Option` and `Result`.
- `StringOrder`: Python's `<=` on `str`. It is proved to be lexicographic order and to be
  a total order.
- `Whitespace`: `str.isspace` and `str.strip()`.
- `StyleEntries`:
  - catalog elements (`Entry`, `ImageField`), `StyleRecord` and `Sample`;
  - the loop body for one element (`Examine`);
  - the pass over the catalog in file order (`Collect`, a left fold that yields `None`
    once an element raises).
- `StableSort`: the `(feature, name)` sort key and a stable insertion sort. The sort is
  proved sorted, a permutation, order-preserving within each key, and equal to every
  other stable sort.
- `StyleLookup`: the lookup as a left fold with last-write-wins.
- `StyleLoader`:
  - the load as a function (`LoadStyles`) and as the source's loop (`LoadStylesLoop`);
  - theorems that relate the output to the catalog entries;
  - the select handler.
- `CustomInput`: the custom-prompt check.

How the source's Python behaviour is represented:

- **Truthiness.** An absent or empty string is "missing" (`Present`).
- **Raising elements.**
  - An element that is not an object (`Malformed`) raises at `style.get`.
  - An image member that is present but not an object (`NotAnObject`, e.g. `null`) raises
    at `.get('url')`.
  - The image members are read only after the feature check passes. So a non-object image
    on an entry with another feature raises nothing.
  - A raise anywhere abandons the whole load (`Collect` yields `None`). `LoadStyles` then
    returns `EmptyCatalog`.
- **Parsed document.** The loader receives `Option<seq<Entry>>`. `None` stands for a file
  that cannot be opened, text that is not JSON, or a top-level value that cannot be
  iterated. Either way the loader returns `([], {})`.
- **Base URL.** `BASE_URL` is the parameter `base`. The source sets it to `""`, which
  leaves paths unchanged (`Resolve`).
- **Sort order.** Python compares `str` by code point. Dafny's `char` order is the same.
  The sort key is the tuple `(x[3], x[2])`, i.e. (feature, name).

Two consequences of the code are worth stating:

- Since `"AI_Art"` is a proper prefix of `"AI_Art_Changestyle"`, every `AI_Art` sample sorts
  before every `AI_Art_Changestyle` sample. For the two-entry Vintage/Retro catalog,
  Vintage comes first (`StyleLoader.TwoStyleExample`).
- Names need not be unique. Lines 32-33 of `gradio_ui.py` append every qualifying entry as
  a sample, while the lookup keeps the last record per name
  (`StyleLoader.DuplicateNameShadowsSample`).

## Model

| member | source | states |
|---|---|---|
| `StringOrder.LeIsLexicographic` | gradio_ui.py:41 | Python's string `<=`, used by the sort key, holds exactly when one string is a prefix of the other or the first differing character is smaller |
| `StringOrder.LeTotal` | gradio_ui.py:41 | any two strings are comparable, so the key comparison never fails |
| `StringOrder.LeTransitive` | gradio_ui.py:41 | string order is transitive |
| `StringOrder.LeAntisymmetric` | gradio_ui.py:41 | strings that are mutually `<=` are equal |
| `StableSort.KeyLeTotal` | gradio_ui.py:41 | any two `(feature, name)` keys are comparable |
| `StableSort.KeyLeTransitive` | gradio_ui.py:41 | `(feature, name)` tuple order is transitive |
| `StableSort.KeyLeAntisymmetric` | gradio_ui.py:41 | keys that are mutually `<=` are equal |
| `StableSort.Sort` | gradio_ui.py:41 | the sorted samples are a permutation of the input, of the same length, and every pair is in non-decreasing `(feature, name)` order |
| `StableSort.SortStable` | gradio_ui.py:41 | for every key, the samples with that key appear in the same relative order before and after sorting |
| `StableSort.SortedArrangementUnique` | gradio_ui.py:41 | two sorted sequences with the same per-key subsequences are equal |
| `StableSort.SortIsTheStableSort` | gradio_ui.py:41 | any sorted arrangement that keeps each key's samples in input order is this sort's result, so the model agrees with Python's stable `list.sort` |
| `StyleEntries.Resolve` | gradio_ui.py:29 | the full URL is the base followed by the path; with an empty base it is the path itself |
| `StyleEntries.ResolveOptional` | gradio_ui.py:30 | the before URL is present exactly when the before path is non-empty, and then it is the base followed by the path |
| `StyleEntries.Examine` | gradio_ui.py:21-30 | one element raises exactly on a non-object element, or a kept feature with a non-object image member. It is kept exactly when the feature is accepted and name, prompt and after-path are non-empty. The kept record carries the entry's name, prompt and feature and base-prefixed URLs |
| `StyleEntries.Collect` | gradio_ui.py:20-32 | when the pass completes it keeps no more records than there are entries, and every kept record is well formed: accepted feature, non-empty name and prompt, base-prefixed URLs |
| `StyleEntries.CollectFailsIffRaises` | gradio_ui.py:20-32 | the pass fails exactly when some element raises |
| `StyleEntries.CollectMembers` | gradio_ui.py:20-32 | when the pass completes, a record is kept exactly when some entry yields it |
| `StyleEntries.CollectAppend` | gradio_ui.py:20-32 | the pass over a concatenation is the two passes joined in order, so each entry contributes independently and in file order |
| `StyleEntries.CollectCountsQualifying` | gradio_ui.py:20-32 | with no raising element there is exactly one record per qualifying position, repeated names included |
| `StyleLookup.BuildLookup` | gradio_ui.py:33-39 | the lookup's keys are the kept names, and each key maps to a kept record of that name |
| `StyleLookup.LookupLastWriteWins` | gradio_ui.py:33-39 | the lookup holds, for each name, the record at the last position carrying that name |
| `StyleLoader.LoadStyles` | gradio_ui.py:12-46 | an unreadable document gives the empty pair. The samples are sorted, and the lookup's key set equals the set of sample names. Every sample has an accepted feature, a non-empty name and base-prefixed URLs. Every lookup record is keyed by its own name and well formed |
| `StyleLoader.LoadEmptyIff` | gradio_ui.py:20-46 | the loaded pair is empty exactly when some element raises or no entry qualifies |
| `StyleLoader.LoadStylesLoop` | gradio_ui.py:12-46 | the source's append-and-overwrite loop followed by the sort computes the same pair as the functional model |
| `StyleLoader.LoadSampleOrigins` | gradio_ui.py:20-32 | with no raising element, a sample is in the gallery exactly when some catalog entry is kept and resolves to it |
| `StyleLoader.LoadSamplesCount` | gradio_ui.py:20-32 | with no raising element the gallery has exactly one sample per qualifying entry, repeated names included |
| `StyleLoader.LoadSamplesArrangement` | gradio_ui.py:20-41 | with no raising element the gallery is a permutation of the samples in file order. Samples with equal `(feature, name)` stay in file order |
| `StyleLoader.LoadLookupLastWins` | gradio_ui.py:33-39 | with no raising element, the lookup entry for a name is the record of the last qualifying catalog entry with that name |
| `StyleLoader.LoadLookupMatchesSamples` | gradio_ui.py:32-39 | with no raising element and distinct qualifying names, the lookup entry of every sample's name reproduces that sample |
| `StyleLoader.DuplicateNameShadowsSample` | gradio_ui.py:32-39 | with no raising element, whenever two qualifying entries share a name but resolve to different samples, some gallery sample differs from the lookup record its name selects |
| `StyleLoader.DuplicateNameExample` | gradio_ui.py:32-39 | an instance: a catalog with two `Retro` entries whose after images differ has a sample whose selection shows another entry's images |
| `StyleLoader.SelectStyle` | gradio_ui.py:141-153 | selection succeeds exactly when the clicked sample's name (`evt.value[2]`) is a lookup key. It then shows the record stored under that name, with its name and feature. The after image is shown exactly when the after URL is non-empty, and the before image exactly when the before URL is present and non-empty, each with that URL |
| `StyleLoader.GallerySelectionResolves` | gradio_ui.py:141-153 | for every sample of a loaded gallery, selection succeeds. It shows that sample's name and an accepted feature, and always shows the styled image |
| `StyleLoader.GallerySelectionShowsSample` | gradio_ui.py:141-153 | with no raising element and distinct qualifying names, selecting any gallery sample shows exactly that sample: its name, its feature, its after URL, and its before URL when it has one |
| `StyleLoader.TwoStyleExample` | gradio_ui.py:12-46 | for the Vintage (`AI_Art`) and Retro (`AI_Art_Changestyle`) catalog with a CDN base, Vintage sorts first. Both have no before URL, and Vintage's lookup record carries the prefixed after URL |
| `Whitespace.Strip` | gradio_ui.py:164 | `strip()` returns a slice of its input whose cut-off margins are whitespace, and whose ends are not. The result is empty exactly when the input is all whitespace |
| `CustomInput.CheckCustom` | gradio_ui.py:161-165 | a missing image is rejected first. With an image, an absent or all-whitespace prompt is rejected. Otherwise the prompt, which has a non-whitespace character, is accepted unchanged |

## Left out

- **File reading and JSON decoding** (gradio_ui.py:14-15) are outside the model. The
  loader takes the decoded array, or `None` for a read or parse failure.
- **Non-string JSON values** in `name`, `prompt`, `feature` or `url` are not modelled, and
  neither is Python truthiness on them. The same goes for the `TypeError` that
  mixed-type names would raise during the sort. String fields are `Option<string>`, and a
  non-object element or image member is its own case.
- **The `print` logging** (lines 45, 49-55, 131, 166) produces no value.
- **The Gradio layout, widgets, `gr.State`, event wiring and `demo.launch`** (lines 57-176)
  are UI plumbing over a third-party toolkit.
- **The image-generation call** (lines 132-133, 167-168) is commented out and stubbed. An
  accepted custom input stops at `Success`.
- **`generate_image`** (lines 126-133) is not modelled. It repeats the missing-image check,
  then reads the selected style's prompt.
- **Image values** are modelled only as present or absent (a type parameter of
  `CheckCustom`).
- **Determinism across repeated calls** is not stated as a lemma. Every loader member is
  a pure function of the document and the base URL.
