# Retrieval pipeline, phone normalisation and prompt template: a Dafny model

This project models the document-retrieval pipeline in `rag.py` in Dafny and
proves properties of it. The pipeline has five stages:

- whitespace normalisation (`_normalize_ws`);
- PDF text extraction with its pypdf → PyMuPDF → OCR fallback chain;
- overlapping word-window chunking (`chunk_text`);
- the append-only document/chunk store (`add_document_from_text`,
  `add_pdf_file`, `_load_all_chunks`);
- ranking by score (`retrieve_bm25`) and context packing under a global and a
  per-chunk character budget (`make_context`).

It also models two small pure cores beside the pipeline:

- the phone-number rewriting of `backend-flask/utils/phone_utils.py`
  (`to_e164`, `normalize_for_whatsapp`, `normalize_phone`);
- the fixed prompt template `build_prompt` of `llm.py`.

Files, one module each:

| file | module | models |
|---|---|---|
| `pystr.dfy` | `Py` | the Python string built-ins the code relies on |
| `normalize.dfy` | `Whitespace` | `_normalize_ws` |
| `extract.dfy` | `Extraction` | `extract_text_from_pdf` |
| `chunker.dfy` | `Chunker` | `chunk_text` |
| `store.dfy` | `DocStore` | the SQLite tables, as a class |
| `ranking.dfy` | `Ranking` | `retrieve_bm25` |
| `context.dfy` | `Packing` | `make_context` |
| `phone.dfy` | `Phone` | `phone_utils.py` |
| `prompt.dfy` | `Prompt` | `build_prompt` |

The source's own shapes are kept:

- **Imperative code becomes methods with loops.**
  - `chunk_text`'s `while` loop is `Chunker.SlideWindows`.
  - `make_context`'s `for` loop with `continue` and `break` is `Packing.MakeContext`.
  - Each is proved equal to a specification function (`Chunks`, `Context`).
  - The lemmas state the properties of those functions.
- **The database becomes a class.** `DocStore.Store` keeps its `docs` and
  `rows` as sequence fields. `AddDocumentFromText` appends to both and keeps an
  invariant: ids 1, 2, … in order, and each document's rows indexed from 0.
- **Pure logic becomes functions.** This covers the extraction chain, the
  ranking sort-and-slice, the phone rewrites and the prompt.

Python semantics are written out where they matter:

- `str.strip` and `\s` use the code points of `str.isspace`;
- `str.split(" ")` splits at each single space, so `"".split(" ") == [""]`;
- `s[:k]` clamps, and a negative `k` counts from the end;
- `str.replace(p, "")` is a single left-to-right pass;
- `str(n)` renders an integer in decimal.

The environment defaults (`RAG_CHUNK_SIZE`, `RAG_CHUNK_OVERLAP`,
`RAG_CONTEXT_CHARS`, `RAG_PER_CHUNK_MAX_CHARS`) are explicit parameters.

`retrieve_bm25` truncates with `[:top_k]`: `top_k == 0` gives `[]`, and a
negative `top_k` drops the last `|top_k|` results instead of giving `[]`.
`Ranking.Retrieve` states this.

## Model

| member | source | states |
|---|---|---|
| Py.PyPrefix | rag.py:224 | `[:k]` keeps `min(k, n)` items for `k >= 0` and `max(0, n + k)` items for negative `k`, always a prefix |
| Whitespace.NormalizeWsShape | rag.py:55-56 | the result has no leading or trailing whitespace, and its only whitespace is single `' '` characters, each followed by a non-whitespace character |
| Whitespace.NormalizeWsDense | rag.py:55-56 | the non-whitespace characters of the input survive, in order, and nothing else is added |
| Whitespace.NormalizeWsEmpty | rag.py:55-56 | the result is `""` exactly when the input is empty or whitespace only |
| Whitespace.NormalizeWsFixed | rag.py:55-56 | text already in normalised form comes back unchanged |
| Whitespace.NormalizeWsIdempotent | rag.py:55-56 | normalising twice is the same as normalising once |
| Whitespace.WordsShape | rag.py:55-56 | `Words(s)`, the maximal runs of non-whitespace characters of `s` in order, are each non-empty and hold no whitespace |
| Whitespace.WordsStrip | rag.py:56 | `strip()` does not change the words of a text |
| Whitespace.WordsCollapse | rag.py:56 | replacing each whitespace run by one `' '` does not change the words of a text |
| Whitespace.SplitWords | rag.py:136 | on single-spaced text, `split(" ")` gives the words, plus a leading `""` when the text starts with a space |
| Whitespace.NormalizeWsWords | rag.py:55-56 | for a text that is not blank, `split(" ")` of the normalised text is exactly its words |
| Extraction.ExtractText | rag.py:62-115 | non-empty pypdf text wins; otherwise, if PyMuPDF cannot open the document, `""` without OCR; otherwise non-empty PyMuPDF text; otherwise the OCR text, even when empty (`""` when OCR fails); the result is always normalised |
| Extraction.ExtractEmpty | rag.py:62-115 | extraction yields `""` exactly when pypdf is absent or blank, and PyMuPDF is absent or blank with OCR absent or blank |
| Extraction.DropFailedPage | rag.py:73-77 | a page whose extraction raises only drops that page from the strategy's text |
| Extraction.StrategyTextBlank | rag.py:78-79 | a strategy's normalised text is empty exactly when every page it read was blank |
| Chunker.Clamp | rag.py:133-139 | the effective size is the request, or 50 when the request is below 50; the overlap is the request when it lies in `[0, size-1]`, 0 below that range and `size - 1` above it; the step is `size - overlap`, between 1 and size |
| Chunker.ChunkText | rag.py:118-146 | the chunks `chunk_text` returns are the windows of `Chunks`: normalise, clamp, split, slide |
| Chunker.SlideWindows | rag.py:136-146 | the `while` loop emits one window per start position `0, step, 2·step, …`, stopping after the first window that reaches the last word |
| Chunker.ChunksEmpty | rag.py:122-124 | there are no chunks exactly when the text is empty or whitespace only |
| Chunker.ChunksCount | rag.py:139-145 | for N words the number of chunks is `ceil(max(0, N - size) / step) + 1` |
| Chunker.ChunksAt | rag.py:140-145 | chunk `k` is the space-join of the words `[k·step, k·step + size)` of the normalised text, and only the last chunk reaches the final word |
| Chunker.ChunksCover | rag.py:140-145 | every word of the normalised text lies in some chunk's window |
| Chunker.ChunksOverWords | rag.py:122-146 | for a text that is not blank, the words the loop slides over are exactly the text's whitespace-separated words, and the chunks are the windows over them |
| Chunker.ChunksSingle | rag.py:140-144 | text of at most `size` words is one chunk: the normalised text itself |
| DocStore.SelectAll | rag.py:192-194 | loading without a document id returns every row, in insertion order |
| DocStore.SelectScoped | rag.py:195-197 | loading with a document id returns exactly that document's rows |
| DocStore.LoadAfterAppend | rag.py:161-164 | after a new document's rows are appended, loading it gives exactly its chunks, tagged 0..n-1; loading any other document gives what it gave before |
| DocStore.Store.constructor | rag.py:26-52 | the store starts with empty tables |
| DocStore.Store.AddDocumentFromText | rag.py:149-166 | the new id is one more than the number of stored documents; one `documents` row with no title is appended, then the chunks of `chunk_text` as rows 0..n-1; loading that id returns exactly those rows, and every other document loads as before |
| DocStore.Store.AddPdfFile | rag.py:169-177 | extracts, indexes the text as a new document, and returns its id with the number of chunk rows it now has |
| Ranking.RankedSpec | rag.py:224 | the ranked row indices are a permutation of all rows, with higher scores first and equal scores in row order (the one output of a stable descending sort) |
| Ranking.KeptSorted | rag.py:224 | the indices kept by `[:top_k]` are valid rows in that stable descending order |
| Ranking.Results | rag.py:225-228 | result `k` carries row `ix[k]`'s document id, chunk index, text and score |
| Ranking.Retrieve | rag.py:214-229 | no rows give `[]`; otherwise the length is `min(top_k, n)` for `top_k >= 0` and `max(0, n + top_k)` for negative `top_k` |
| Ranking.RetrieveOrdered | rag.py:224-228 | each result is the row it was ranked from; scores never increase; ties keep row order; no row appears twice |
| Ranking.RetrieveTop | rag.py:224 | a row cut off by `[:top_k]` scores no higher than any row kept |
| Packing.Cut | rag.py:257-260 | the packed text is a prefix of the stripped chunk, of length `min(len, cap, budget)` when the cap is positive and `min(len, budget)` otherwise |
| Packing.NextPiece | rag.py:248-262 | one loop turn: skip a chunk that strips to empty, stop when the budget is at most 0, otherwise pack one piece and advance the total by its length + 1 |
| Packing.MakeContext | rag.py:232-263 | the `for` loop returns `Context`: the tagged pieces joined by `"\n\n"` |
| Packing.PackSpent | rag.py:253-255 | once the budget `max_chars - total - 50` is at most 0, nothing more is packed |
| Packing.PackBudget | rag.py:252-262 | when anything is packed, the final running total is at most `max_chars - 49` |
| Packing.PackEmpty | rag.py:247-255 | nothing is packed exactly when the budget is already spent or every remaining chunk strips to empty |
| Packing.PackOrigins | rag.py:247-261 | each piece comes from a distinct chunk, in input order; its text is a non-empty prefix of that chunk's stripped text, no longer than the cap when the cap is positive |
| Packing.ContextOrigins | rag.py:247-263 | the same, for the whole of `make_context` over the input chunks |
| Packing.PackLengths | rag.py:252-262 | piece `j` keeps `min(len, cap, room)` characters of its chunk's stripped text (`min(len, room)` when the cap is not positive), where the room `max_chars - 50 - total` less what the earlier pieces used is positive |
| Packing.PackComplete | rag.py:248-255 | a chunk that does not strip to empty and that no piece comes from lies after every packed chunk, and no room was left after the pieces: packing stopped before it |
| Packing.ContextLengths | rag.py:247-263 | piece `j` of `make_context` keeps `min(len, cap, max_chars - 50 - used)` characters of its chunk's stripped text, `used` being the earlier pieces' lengths plus one each |
| Packing.ContextComplete | rag.py:247-263 | with `ContextOrigins`: the pieces come from exactly the chunks that do not strip to empty, taken in order until the budget runs out |
| Packing.ContextBudget | rag.py:252-262 | the packed texts plus one per piece total at most `max(0, max_chars - 49)` |
| Packing.ContextEmpty | rag.py:247-263 | the context is `""` exactly when `max_chars <= 50` or every chunk strips to empty |
| Packing.ContextFirstFills | rag.py:253-262 | a first chunk whose stripped text fills the budget (and any positive cap) is the whole context: its first `max_chars - 50` characters under `[doc=… chunk=…]` |
| Packing.ContextCapFirst | rag.py:257-260 | a first chunk longer than a positive cap that the budget can hold is packed as its first `cap` characters: the cap applies before the budget |
| Phone.DropSeparators | backend-flask/utils/phone_utils.py:17 | the result holds exactly the characters of the input other than space, `-`, `(` and `)` |
| Phone.DropSeparatorsAppend | backend-flask/utils/phone_utils.py:17 | removing separators works character by character: it distributes over concatenation |
| Phone.DropSeparatorsOne | backend-flask/utils/phone_utils.py:17 | one character is dropped exactly when it is a space, `-`, `(` or `)`, and kept otherwise |
| Phone.KeepDigits | backend-flask/utils/phone_utils.py:55 | the result is all digits and holds exactly the input's digits |
| Phone.KeepDigitsAppend | backend-flask/utils/phone_utils.py:55 | keeping digits distributes over concatenation, so the digits stay in input order |
| Phone.KeepDigitsOne | backend-flask/utils/phone_utils.py:55 | one character is kept exactly when it is a digit |
| Phone.Clean | backend-flask/utils/phone_utils.py:16-17 | the text handed to the parser has no spaces, hyphens or parentheses and is no longer than the input |
| Phone.CleanPlain | backend-flask/utils/phone_utils.py:16-17 | whitespace around a number without `whatsapp:` is removed, and of the rest only the separators are dropped, the other characters kept in order |
| Phone.StripRemovePrefix | backend-flask/utils/phone_utils.py:16 | a pattern that begins the stripped text and does not occur after it is removed, leaving the rest |
| Phone.CleanPrefixed | backend-flask/utils/phone_utils.py:16-17 | a leading `whatsapp:` goes together with the surrounding whitespace; of the rest only the separators are dropped |
| Phone.ToE164 | backend-flask/utils/phone_utils.py:8-26 | `""` gives `None`; otherwise the result is present exactly when the library accepts the cleaned text, and then it is `+` followed by the decimal digits the library gives for that cleaned text |
| Phone.WaDigits | backend-flask/utils/phone_utils.py:56-58 | shortening a leading `549` to `54` keeps a digit string all digits |
| Phone.NormalizeForWhatsapp | backend-flask/utils/phone_utils.py:29-58 | the result is `None` exactly when the input is `""`; the one recursive call is on an E.164 text, which ends the recursion |
| Phone.NormalizePlus | backend-flask/utils/phone_utils.py:39-47 | a stripped input starting with `+549` gives `54` and what follows `+549`; any other `+` input gives the text after the `+` |
| Phone.NormalizeParsed | backend-flask/utils/phone_utils.py:49-52 | an input without `+` that parses gives its E.164 digits, with `549` shortened to `54` |
| Phone.NormalizeFallback | backend-flask/utils/phone_utils.py:54-58 | an input without `+` that does not parse gives its digits, with `549` shortened to `54` |
| Phone.NormalizeWa | backend-flask/utils/phone_utils.py:29-58 | all three cases in one rule: the WhatsApp id is the `549`→`54` rewrite of the text after `+`, else of the parsed E.164 digits, else of the input's digits |
| Phone.NormalizeDigits | backend-flask/utils/phone_utils.py:49-58 | without a leading `+`, the WhatsApp id is all digits |
| Phone.NormalizeE164 | backend-flask/utils/phone_utils.py:30-47 | an E.164 number's WhatsApp id is its digits after `+`, with `549` shortened to `54` (`+5492216705941` → `542216705941`), and it is all digits |
| Phone.NormalizePhone | backend-flask/utils/phone_utils.py:61-85 | `""` gives `(None, None, False)`; otherwise, with `whatsapp:` removed, a number `to_e164` accepts is returned with its WhatsApp id (its digits, `549` shortened to `54`); when it is not accepted, the id is `normalize_for_whatsapp` of the text and the E.164 number is `to_e164` of that id; `valid` holds exactly when an E.164 number is returned, and that number is `+` and digits |
| Phone.NormalizePhonePrefix | backend-flask/utils/phone_utils.py:66-69 | a `whatsapp:` prefix on the raw input does not change the result |
| Phone.NormalizePhoneWa | backend-flask/utils/phone_utils.py:69-79 | the WhatsApp id is missing only when nothing remains once `whatsapp:` is removed; when the input parses, the id is the E.164 digits with `549` shortened to `54` |
| Prompt.BuildPrompt | llm.py:20-30 | the prompt starts with `[SISTEMA]\n`, the system text and a blank line, ends with `[INSTRUCCIONES]\nResponde en español.`, and its length is a constant plus the lengths of the context and the question |
| Prompt.PromptParts | llm.py:25-30 | the context sits right after `[CONTEXTO]\n` and the question right after the `[PREGUNTA]\n` that follows it; both read back from the prompt |
| Prompt.PromptInjective | llm.py:25-30 | two prompts whose contexts have the same length are equal only when context and question are equal |
| Prompt.PromptAmbiguous | llm.py:27-28 | without that length the prompt does not determine its arguments: a context holding `"\n\n[PREGUNTA]\n"` can trade text with the question |

## Left out

- SQLite itself: connections, commits, `init_db`'s `CREATE TABLE IF NOT EXISTS`, and `_ensure_dirs`. The tables are sequences in memory. AUTOINCREMENT ids are modelled as the count of stored documents plus one, which holds because nothing deletes a row.
- `SELECT` without `ORDER BY`: rows are returned in insertion order, which is what SQLite does for these tables in practice but does not guarantee.
- `datetime.utcnow()`: the upload timestamp is a parameter.
- The PDF libraries (pypdf, PyMuPDF, pytesseract/PIL). Each strategy is its outcome: `None` when the library fails to open the document or to load, otherwise one result per page, where a failing page is `PageFailed`.
- BM25 scoring, `_tokenize` and `float(score)`: the scores are an input sequence of reals, one per loaded row. NaN scores are not modelled.
- The environment lookups and their `int(...)` fallbacks: the four settings are explicit integer parameters.
- `None` arguments: every text input is a string. The `text or ""` and `ch.text or ""` guards only matter for `None`.
- `call_groq` / `call_llm`, the Flask route handlers, and the WhatsApp, n8n and test clients: network glue outside this model.
- The `phonenumbers` library: parsing, validity rules and E.164 formatting are one uninterpreted function parameter. It returns the number's E.164 digits as a natural number or `None`. An E.164 text is never `""`, so the truthiness tests `if e164:` and `if maybe_e164:` are presence tests.
- Phone.KeepDigits: keeps only the ASCII digits `0`-`9`. Python's `\D` also keeps the other Unicode decimal digits (for example Arabic-Indic ones).
- Input to `to_e164` made only of whitespace and separators reaches the library as `""`. What the library does with it is not modelled: the model passes `""` to the parameter, as the source does.
