# Multi-PDF RAG Bot: the index bookkeeping, verified

The backend of the Multi-PDF RAG Bot keeps PDFs in a data directory. It
answers questions from a vector store that it builds lazily and holds in the
module-level `vectorstore` handle. Two mechanisms decide when that handle is
still good:

- a change fingerprint: an MD5 digest of the sorted `name:size` entries of
  the PDFs, kept in a state file;
- the upload, delete and ask endpoints, which read that fingerprint and
  drop, build or reuse the handle.

The answer step is a short decision. It needs an API key and a non-empty
retrieval result. Otherwise it returns a fixed sentence and never calls the
language model.

The Dafny modules follow the two backend files:

- `Wrappers`: `Option` and `Result`.
- `Strings`: `sep.join(parts)` and `str(n)` for sizes, with their slicing
  and round-trip properties.
- `Order`: Python's string order and the sorted listing of a set of names.
- `RagPipeline`: `backend/my_rag_pipeline.py`.
  - The `Disk` class holds the data directory (file name to size), the state
    file and the digest function. Its `ComputePdfState` and `PdfsChanged`
    methods model `compute_pdf_state` and `pdfs_changed`.
  - `CreateVectorstore` models the empty-documents guard of
    `create_vectorstore`.
  - `GetAnswerFromGroq` models `get_answer_from_groq`. The function returns
    the answer together with the log of collaborator calls it made.
- `Api`: `backend/main.py`. The `App` class holds the `Disk` and the
  `vectorstore` handle. `Upload`, `Delete`, `Ask` and `ListPdfs` model the
  four endpoints.
- `Scenarios`: short call sequences over `Disk` and `App`.

Collaborators become parameters:

- MD5 is the `digest` function a `Disk` is built with. MD5 is not injective,
  so facts that need the digest to tell two listings apart assume only that
  it does not collide on those two (`NoCollision`).
- Similarity search and the Groq model are function parameters.
- The API key is an `Option<string>`.
- The pages `load_pdfs` returns are a parameter of `Ask`.
- The built store is an `Index`: the PDFs present when it was built, plus the
  pages.

The ghost counters `Disk.stateWrites` and `App.builds` count state-file
writes and vector-store builds. With them, the contracts can say that no
write and no build happened.

Three facts about the fingerprint bound what the handle invariant can promise:

- **File names containing '|'.** The joined entries are not injective then:
  `{x.pdf: 1, y.pdf: 2}` and a single file named `x.pdf:1|y.pdf` of size 2
  give the same raw string (`RawStateCollision`). So "same fingerprint, same
  PDFs" is proved only for names without '|' (`RawStateInjective`).
- **A state file written before the server started.** It may not match the
  directory. `Scenarios.StaleStateFile` shows the consequence:
  - the server starts with a state file recorded for PDFs a and b, but only
    a is present;
  - a question builds a store over a alone;
  - an upload then restores b;
  - `pdfs_changed()` sees the old fingerprint again and keeps the store that
    lacks b.
- **No state file at start-up.** `ask` never writes the state file. So after
  a cold start, the first upload takes the missing-file branch of
  `pdfs_changed()` and drops the handle, even when it rewrites a file with
  the same name and size (`Scenarios.ColdStartUpload`). A handle survives an
  unchanged upload only once the state file holds the current fingerprint.

The handle invariant `App.Consistent` therefore needs the state file to be in
sync with the directory, or absent. `Upload`, `Delete` and `Ask` keep that
invariant. `Delete` always establishes it, and `Ask` establishes it when the
state file is in sync and there is no handle yet.

## Model

| member | source | states |
|---|---|---|
| Strings.Join | backend/my_rag_pipeline.py:37 | definition of Python's `sep.join(parts)`: the empty string for no parts, the part itself for one, otherwise the parts with `sep` between neighbours |
| Strings.JoinEnd | backend/my_rag_pipeline.py:37 | the joined string ends right after its last part, so with `JoinPart` and `JoinSeparator` the parts and separators cover it with nothing else |
| Strings.JoinPart | backend/my_rag_pipeline.py:37 | every part appears verbatim in `sep.join(parts)`, at its offset |
| Strings.JoinSeparator | backend/my_rag_pipeline.py:37 | exactly the separator lies between part i and part i + 1, so the parts keep their order |
| Strings.SplitJoin | backend/my_rag_pipeline.py:37 | cutting the joined string at the separator gives back the parts when they are non-empty and free of it |
| Strings.JoinInjective | backend/my_rag_pipeline.py:37 | two lists of non-empty, separator-free parts that join to the same string are equal |
| Strings.DecimalString | backend/my_rag_pipeline.py:36 | `str(size)` is a non-empty string of decimal digits |
| Strings.ParseDecimalString | backend/my_rag_pipeline.py:36 | reading the digits of `str(n)` back gives n |
| Strings.DecimalStringInjective | backend/my_rag_pipeline.py:36 | different sizes print differently |
| Order.LexLess | backend/my_rag_pipeline.py:35 | definition of `<` on Python strings, code point by code point |
| Order.LexLessFirstDifference | backend/my_rag_pipeline.py:35 | a < b iff a is a proper prefix of b or a has the smaller code point at the first position where they differ |
| Order.LexLessIrreflexive | backend/my_rag_pipeline.py:35 | no name sorts before itself |
| Order.LexLessTransitive | backend/my_rag_pipeline.py:35 | the string order used by `sorted` is transitive |
| Order.LexLessTotal | backend/my_rag_pipeline.py:35 | of two different names, one sorts before the other |
| Order.LeastExists | backend/my_rag_pipeline.py:35 | every non-empty set of names has a least name |
| Order.SortedNames | backend/my_rag_pipeline.py:35 | definition of `sorted` on the set of names: the least name first, then the sorted rest |
| Order.SortedNamesSpec | backend/my_rag_pipeline.py:35 | the sorted listing is strictly increasing and lists exactly the set, once each |
| Order.SortedListingUnique | backend/my_rag_pipeline.py:35 | any strictly increasing listing of the set is that listing, so the result does not depend on directory enumeration order |
| RagPipeline.IsPdf | backend/my_rag_pipeline.py:35 | definition of a match of `glob("*.pdf")` (also used at backend/main.py lines 64 and 77): the name ends in ".pdf", case-sensitively, and ".pdf" itself matches |
| RagPipeline.IsPdfGlob | backend/my_rag_pipeline.py:35 | a name matches iff it is some stem, possibly empty, followed by ".pdf" |
| RagPipeline.Item | backend/my_rag_pipeline.py:36 | definition of the entry `f"{pdf.name}:{pdf.stat().st_size}"`: the name, a ':', and the size in decimal |
| RagPipeline.ParseItemOfItem | backend/my_rag_pipeline.py:36 | an entry `name:size` splits back, at its last ':', into the name and the size |
| RagPipeline.RawStateInjective | backend/my_rag_pipeline.py:34-37 | when no PDF name contains '\|', equal raw strings come from equal (name, size) maps |
| RagPipeline.RawStateCollision | backend/my_rag_pipeline.py:36-37 | two different PDF maps, one with a '\|' in a name, have the same raw string |
| RagPipeline.FingerprintDeterminesPdfs | backend/my_rag_pipeline.py:32-38 | when the digest does not collide on the two listings and no name holds '\|', equal fingerprints mean equal (name, size) maps |
| RagPipeline.SortedItems | backend/my_rag_pipeline.py:34-36 | the loop produces the `name:size` entries of all PDFs in sorted name order |
| RagPipeline.Disk.constructor | backend/my_rag_pipeline.py:19-30 | a disk holds the given directory, state file and digest, with no write made yet |
| RagPipeline.Disk.ComputePdfState | backend/my_rag_pipeline.py:32-38 | the result is the digest of the sorted entries joined by '\|' |
| RagPipeline.Disk.PdfsChanged | backend/my_rag_pipeline.py:40-51 | afterwards the state file holds the current fingerprint; the result is true iff it was missing or different; the file is written once exactly then and not otherwise |
| RagPipeline.CreateVectorstore | backend/my_rag_pipeline.py:65-86 | fails with `ValueError("No PDFs found")` iff the loader returned no pages; otherwise the store covers the directory's PDFs and every page |
| RagPipeline.KeyMissing | backend/my_rag_pipeline.py:90 | definition of `not api_key`: no key, or the empty string |
| RagPipeline.Context | backend/my_rag_pipeline.py:97 | definition of the context: the page contents of the retrieved documents, in retrieved order, joined by a blank line |
| RagPipeline.ContextInRetrievedOrder | backend/my_rag_pipeline.py:97 | the context holds each retrieved page verbatim, in retrieved order, separated by a blank line |
| RagPipeline.Prompt | backend/my_rag_pipeline.py:104-114 | the prompt is the instructions, the context block, the question heading, the question and a newline, in that order |
| RagPipeline.GetAnswerFromGroq | backend/my_rag_pipeline.py:89-115 | no key gives "GROQ_API_KEY not set" with no call; otherwise search is called first with k = 30; an empty result gives the not-found sentence; the model is called iff both guards pass, and then once, on the prompt, with its content returned |
| Api.StoredKeys | backend/main.py:32-35 | after an upload the directory holds the earlier files and the uploaded names |
| Api.Stored | backend/main.py:32-35 | definition of the directory after the write loop: the uploads applied one after another, each writing its filename with its size, so a later one overwrites an earlier one |
| Api.StoredUntouched | backend/main.py:32-35 | a file that no upload names keeps its size |
| Api.StoredLastWins | backend/main.py:32-35 | a name uploaded several times ends with the size of its last upload |
| Api.Deleted | backend/main.py:49-52 | a name is present afterwards iff it was present and not listed; every remaining file keeps its size; listed names that do not exist are skipped |
| Api.App.constructor | backend/main.py:18 | the service starts without a handle and without builds |
| Api.App.ActiveHandleMatchesDirectory | backend/main.py:37-39 | under the handle invariant, no digest collision between the handle's and the directory's listings, and no '\|' in names, the active store was built from exactly the PDFs now present |
| Api.App.Upload | backend/main.py:28-42 | files are written in order; the state file ends in sync and is written once exactly when it changed; the handle is dropped iff `pdfs_changed()` reports a change, so it survives an upload that keeps every (name, size) pair when the state file already held the current fingerprint; the handle invariant is kept |
| Api.App.Delete | backend/main.py:45-57 | exactly the listed names that exist are removed; the handle is always dropped; the state file ends in sync and is written once exactly when it changed; the handle invariant holds |
| Api.App.Ask | backend/main.py:60-72 | no PDF gives HTTP 400 "No PDFs uploaded" with no build and the handle unchanged; a present handle is reused without a build; an absent one is built once and kept, unless the loader had no pages; the answer comes from the handle; the handle invariant is kept and, from a synced state file with no handle, established |
| Api.App.ListPdfs | backend/main.py:75-77 | lists each PDF in the directory exactly once and nothing else |
| Scenarios.RepeatedCheck | backend/my_rag_pipeline.py:40-51 | a first check without a state file reports a change; an immediate second check does not |
| Scenarios.CheckTwice | backend/my_rag_pipeline.py:40-51 | on any disk, a second check right after a first reports no change, and the pair writes the state file at most once |
| Scenarios.AskTwice | backend/main.py:67-68 | two questions with nothing in between build at most one store |
| Scenarios.DeleteThenAsk | backend/main.py:54-68 | after a delete, the next question rebuilds the store from the PDFs that remain |
| Scenarios.StaleStateFile | backend/main.py:37-39 | with a stale state file at start-up, an upload keeps a store that lacks a PDF now present: the handle is present and its PDFs differ from the directory's |
| Scenarios.ColdStartUpload | backend/my_rag_pipeline.py:42-44 | `ask` never writes the state file, so after a cold start the first upload drops the handle even when it rewrites the same name with the same size |

## Left out

- `load_pdfs` (PDF extraction with the PyPDF loader and its Unstructured fallback) is I/O. `Ask` takes the pages it would return as a parameter.
- Chunking, embeddings, Chroma persistence and similarity ranking are foreign code. An `Index` keeps only the PDFs and the pages it was built from, and similarity search is a function parameter.
- The Groq chat model and its settings (model name, client construction) are foreign code. The model is a function from prompt to answer content.
- MD5 is a foreign algorithm. It is the `digest` function of a `Disk`, and no property of MD5 is used beyond the explicit `NoCollision` assumption on the two listings a lemma compares.
- File contents are not modelled. A file is its name and its size in bytes, which is all the fingerprint reads. An edit that keeps the size is therefore invisible, exactly as in the code.
- File names are taken as plain keys of the directory. Path separators in an uploaded `filename`, directories whose names end in ".pdf", and file-system errors are not modelled.
- Exceptions raised by collaborators are not modelled: a failing model call, a failing loader, a failed write. Only the `ValueError` of the empty-documents guard is.
- Concurrency is not modelled. Requests are taken one at a time; the code has no lock around `vectorstore`, so nothing is claimed about parallel builds.
- FastAPI and pydantic plumbing, `shutil` byte copying, `.env` loading (the key is an `Option` parameter), logging and `print` are glue code with no logic. So is the `home` endpoint.
- The Streamlit frontend and the standalone indexing script are not part of this model.
- Platform behaviour is that of POSIX. `glob` matching and `sorted` on paths are case-sensitive here; on Windows, pathlib matches and compares names case-insensitively.
- File names are sequences of Unicode characters. A name that `raw.encode()` cannot encode would raise before hashing, and that error path is not modelled.
- Chroma reopens the collection persisted in its fixed directory. An `Index` therefore records the inputs of one build, not everything the store may hold from earlier builds.
- Api.App.ListPdfs: the order of the listing is not modelled, because `glob` returns names in file-system order.
- Scenarios.AskTwice: states only the bound on builds; what each answer is follows from `Api.App.Ask`.
