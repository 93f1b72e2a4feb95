# PBI generator core, modelled in Dafny

The application takes a feature description, turns it into backlog items (PBIs) with a
generative model, and shows each item as HTML. Four deterministic pieces of `app.py` are
modelled here, with proofs of what they guarantee:

- **The PBI → HTML serialiser** (`pbi_to_html`), in module `PbiHtml`.
  - `Pbi` is the item record. `Markup` gathers the fixed strings the serialiser writes, and `Html` holds the serialiser's own strings.
  - `Render` is the document as a function. `PbiToHtml` is `pbi_to_html` itself: an accumulator grown with `+=`, with a loop per list.
  - Besides the document's shape, the module proves a two-sided result about escaping. Items whose values contain no `<` render to distinct documents (`RenderInjective`). Values are inserted unescaped, so markup inside a value can make two different items render alike (`MarkupInValuesCollides`).
- **The user message of a generation request** (the request-building part of `generate_pbis`), in module `Prompt`.
  - The text block has its defaults for an empty module or feature, an optional context paragraph, and an optional capture note that quotes the number of captures.
  - The block list is the text block followed by one image block per capture.
- **Cleaning the model's reply** (`raw.replace("```json", "").replace("```", "").strip()`), in module `Reply`. This module also defines Python's `str.replace(pat, "")`.
- **The generate-button handler**, in module `Generate`.
  - A description that is blank after `strip()` gives the error "Añade una descripción funcional", and no request is built.
  - Otherwise every upload is encoded and paired with its media type (`f.type or "image/png"`), and the request content is built.

Module `Text` holds the shared string helpers: prefix and suffix tests, and Python's `str.strip()`. `str.strip()` uses the exact set of characters that Python 3's `str.isspace()` accepts.

The reply cleaning removes every "```json" and every "```" anywhere in the reply, not only the ones around it. The model follows that code.

## Model

| member | source | states |
|---|---|---|
| `Text.Strip` | app.py:114 | The result is a contiguous piece of the input. Only whitespace was cut on either side, and the result neither starts nor ends with whitespace. |
| `Text.StripKeepsTrimmed` | app.py:114 | A text with no whitespace at either end is left unchanged by `strip()`. |
| `Text.StripBlank` | app.py:266 | `strip()` yields the empty string exactly when the text is whitespace only. |
| `PbiHtml.AppendItems` | app.py:57-58 | The `<li>` loop appends exactly `Items(xs)` to the accumulator: one element per entry, in order. |
| `PbiHtml.AppendSection` | app.py:60-64 | An optional list appends its head, its items and `</ul>` when it has entries, and nothing when empty. |
| `PbiHtml.PbiToHtml` | app.py:51-85 | The accumulated string is the document `Render(Html, p)`: the fragments in their fixed order with nothing between them. |
| `PbiHtml.ItemsAppend` | app.py:57-58 | The elements of two concatenated lists are the elements of the first followed by those of the second. |
| `PbiHtml.ItemsAt` | app.py:57-58 | Entry `k` becomes exactly one `<li>` element, placed after the elements of the entries before it and before those after it. |
| `PbiHtml.SectionShape` | app.py:60-84 | An optional section is empty exactly when its list is empty. Otherwise it is its head, its items and `</ul>`. |
| `PbiHtml.MandatoryOnly` | app.py:51-59 | With no optional list the document ends after the happy path. An empty happy path still gives its head and an empty `<ul></ul>`. |
| `PbiHtml.DocumentOpening` | app.py:52-56 | Every document opens with the title heading, the objective, the story head, the Como/Cuando/Entonces/Para paragraph and the acceptance-criteria head, in that order. |
| `PbiHtml.HtmlWellFormed` | app.py:52-84 | The serialiser's markup is separable. Every piece after a value opens with a tag, an item and a list end differ, and the five optional heads differ pairwise in their fifth character. |
| `PbiHtml.ValueCancel` | app.py:55 | A value with no `<`, followed by a tag, is determined by the text: two such values with equal text are equal, and so is what follows the tag. |
| `PbiHtml.ItemsCancel` | app.py:57-59 | A list of entries without `<`, closed by `</ul>`, is determined by its text. |
| `PbiHtml.SectionCancel` | app.py:60-84 | An optional list is determined by its text when what follows it does not open with the same head. |
| `PbiHtml.MandatoryCancel` | app.py:52-59 | The six text fields and the happy path are determined by the mandatory fragments. |
| `PbiHtml.OptionalsCancel` | app.py:60-84 | The five optional lists are determined by the text that follows the happy path. |
| `PbiHtml.RenderInjective` | app.py:51-85 | Two items whose values hold no `<` and that render to the same document are the same item: every field, every entry and their order are recoverable. |
| `PbiHtml.MarkupInValuesCollides` | app.py:57-58 | Values are not escaped. A happy-path entry `a</li><li>b` renders exactly like the two entries `a` and `b`. |
| `Prompt.NatToString` | app.py:96 | `str(len(images))` is a non-empty string of decimal digits with no leading zero. |
| `Prompt.ParseNatToString` | app.py:96 | The numeral reads back as the number it was written from. |
| `Prompt.NatToStringInjective` | app.py:96 | Different counts give different numerals. |
| `Prompt.ComposeText` | app.py:92-96 | The conditional appends build `PromptText`: the header, the description, the context paragraph if a context is given, and the capture note if there are images. |
| `Prompt.ComposeUserContent` | app.py:91-104 | The content has `1 + |images|` blocks. Block 0 is the text block, and block `i + 1` carries image `i`'s media type and data, in order. |
| `Prompt.HeaderShowsModule` | app.py:92 | An empty module is shown as "No especificado". Any other module is shown as given. |
| `Prompt.HeaderShowsFeature` | app.py:92 | An empty feature is shown as "No especificada". Any other feature is shown as given. The header ends with the description label. |
| `Prompt.DescriptionAfterLabel` | app.py:92-96 | The text begins with the header, which ends with "DESCRIPCIÓN:\n", followed immediately by the description. |
| `Prompt.BareText` | app.py:92-96 | Without context and without images, the text is the header followed by the description and nothing else. |
| `Prompt.NoteQuotesCount` | app.py:93-96 | With images, the text is the header, the description, the context paragraph exactly when a context is given, and the capture note last. The number in the note reads back as the image count. |
| `Prompt.NoNoteWithoutImages` | app.py:93-96 | Without images there is no capture note. The text is the header and the description, followed by the context paragraph exactly when a context is given. |
| `Reply.Remove` | app.py:114 | `str.replace(pat, "")`: the occurrences of `pat` found scanning from the left, without overlap, are deleted. Its contract states only that the result is no longer than the input. The lemmas below state the rest. |
| `Reply.RemoveAbsent` | app.py:114 | `replace(pat, "")` leaves a text without `pat` unchanged. |
| `Reply.RemoveRunFree` | app.py:114 | After every "```" is deleted from left to right, no "```" is left in the text. |
| `Reply.ContainsInSlice` | app.py:114 | A piece of a text that has no occurrence of a pattern has none either, so stripping cannot create a fence. |
| `Reply.Clean` | app.py:114 | The whole line 114. The cleaned reply contains no "```" and has no whitespace at either end, whatever the raw reply. |
| `Reply.StripKeepsAbsent` | app.py:114 | `strip()` cannot create an occurrence of a pattern that the text did not have. |
| `Reply.RemoveFenceSuffix` | app.py:114 | Deleting every "```" from a fence-free text followed by a closing fence gives back the text. This holds even when the text ends in backticks and the scan deletes an earlier run of three. |
| `Reply.NoJsonFenceBeforeFence` | app.py:114 | A fence-free text followed by a closing fence contains no "```json". |
| `Reply.CleanFencedReply` | app.py:114 | A reply wrapped as "```json" + payload + "```", with no fence in the payload, is cleaned to exactly the stripped payload. |
| `Reply.CleanKeepsPlainReply` | app.py:114 | A reply with no "```" and no outer whitespace is returned unchanged. |
| `Generate.CollectImages` | app.py:269-274 | There is one image per upload, in order. Each carries the upload's encoded bytes and its media type, or "image/png" when the upload declares none. |
| `Generate.HandleGenerate` | app.py:265-278 | The error "Añade una descripción funcional" is shown exactly when the description is whitespace only, and then no request is built. Otherwise the request content is the text block followed by one image block per upload. |

## Left out

- The Streamlit interface is not modelled (app.py:118-295, apart from the button handler at 265-278): the layout, forms, uploader, previews, expanders, `render_pbi_card` and session state. It is presentation and widget state.
- Building the SDK client and calling the model are left out (app.py:89, 106-111). They are a network call to a foreign library. So is joining the text blocks of the response into `raw` (app.py:113): the model starts from a given `raw` string.
- `json.loads` (app.py:115) is a library call and is not modelled. The decoded result, and therefore whether the model's reply is valid JSON, is outside the model.
- `base64.b64encode(...).decode("utf-8")` (app.py:272) is the parameter `encode` of `CollectImages` and `HandleGenerate`. The encoding itself is not modelled.
- The error shown when generation raises (app.py:279-281) and storing the result in session state are not modelled. Both depend on the left-out call.
- The clipboard JavaScript (app.py:124-161) is browser I/O and is not modelled.
- The content of the instruction template `SYSTEM_PROMPT` (app.py:9-48) is an opaque constant that no modelled operation reads. How many PBIs the model returns is not computable.
- A record missing one of the six required text fields raises `KeyError` at `p[...]`. The `Pbi` datatype always has them, so that error path is not modelled. A missing list and an empty list are both the empty sequence, which is how the serialiser treats them.
- Field values are modelled as strings. A JSON value of another type is formatted by the f-string, and that formatting is not modelled.
- A missing media type (`f.type` is `None`) and an empty one are both the empty string in `Upload.mimeType`. Both give "image/png".
- `Text.Strip`: the whitespace set is fixed to the characters Python 3's `str.isspace()` accepts: the ASCII separators, U+001C-U+001F, U+0085, U+00A0, U+1680, U+2000-U+200A, U+2028, U+2029, U+202F, U+205F and U+3000. A Unicode version that changes that set is not modelled.
- `Reply.Remove`: its own contract bounds only the length. What it deletes and keeps is stated by `RemoveAbsent`, `RemoveRunFree` and `RemoveFenceSuffix`, not as a closed form of Python's `replace`.
- `PbiHtml.RenderInjective`: holds only for items whose values contain no `<`. `MarkupInValuesCollides` shows that it fails without that condition, because the serialiser does not escape values.
