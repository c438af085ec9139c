# Verified model of a legal-document RAG ingestion and retrieval core

This project models in Dafny the sequential core of a retrieval-augmented
question-answering system for legal texts (Saudi statutes, in Arabic and
English). It covers three parts and proves properties of each.

- **The live ingestion path in `ingest.py`.**
  - `clean_text` turns non-breaking spaces into spaces, strips every line, and drops blank lines and short page numbers.
  - `smart_split` cuts the text with `re.split` on "Article"/"المادة" headings. It walks the pieces, carrying the current title and a header count, and emits one document per body piece longer than 20 characters.
  - If the text is longer than 1000 characters and fewer than two headings were seen, `smart_split` throws those documents away. It re-chunks the text by size instead, under the titles `Page/Part 1`, `Page/Part 2`, and so on.
  - `load_file` chains extraction, cleaning and segmentation.
- **The older helpers in `text_utils.py`.**
  - The guard branches of `fix_arabic_text`.
  - A `clean_text` that drops every all-digit line.
  - The strict segmenter `split_text_by_articles`.
- **The parent/child retriever in `rag_engine.py`.**
  - `add_documents` splits each parent into children. It tags each child with the parent's id, writes the parent to the docstore and sends all children to the vectorstore in one batch.
  - `_get_relevant_documents` collects the parent ids of the top five hits, de-duplicates them and fetches the parents. It drops missing entries and entries that fail to unpickle.
  - `RAGEngine.ingest_file` loads a file, adds its documents and writes out the docstore.

Both regex splits are modelled exactly on the text, not taken as input.
- `Regex.Split` is Python's `re.split` for a pattern whose matches are never empty. The pattern is given as a matcher function.
- `Ingest.ArticleMarker` and `TextUtils.ArticleMatch` are the two patterns, written out as greedy scans. Alternatives are tried in the order written and the first that succeeds wins; inside each alternative the greedy run is taken in full, because nothing follows it. The lemmas `KeywordEndExact`, `NumberEndExact`, `MoreWordsGreedy`, `ArticleMarkerExact`, `HeadingEndExact` and `ArticleMatchExact` state exactly when each part matches and where it ends, in terms independent of the scans.

The line cleaning (`Lines`) and the title-carrying walk (`Segments`) are shared by the two variants. Each is defined once and takes the differing header test, drop rule and default title as parameters.

Modules and files:
- `Text` (text.dfy): `str.strip`, `split`, `join`, `isdigit`, `\s`/`\d`/`\w`, `str(n)`.
- `Lines` (lines.dfy): line cleaning.
- `Regex` (regex.dfy): `re.split`.
- `Segments` (segments.dfy): the header/body walk.
- `Docs` (docs.dfy): documents and `os.path`.
- `Ingest` (ingest.dfy), `TextUtils` (text_utils.dfy) and `RagEngine` (rag_engine.dfy): one module per source file.
- `Wrappers` (wrappers.dfy): `Option`.

The loops of the source are methods with loop invariants. Each method is proved equal to a specification function, and the lemmas are stated about those functions. The retriever is a class:
- the docstore is an `Option` of a map, with `None` when the engine could not load one;
- the calls to `vectorstore.add_documents` are recorded in a field;
- the child splitter is a constant function field.

Things the source leaves to other code are parameters:
- the chunk splitter, the child splitter, similarity search and `pickle.loads`;
- the reshaping call;
- the page or paragraph texts a file reader produced;
- whether the vectorstore call and the docstore write succeed.

## Model

| member | source | states |
|---|---|---|
| Text.Strip | ingest.py:34 | defines `str.strip()`: whitespace removed at both ends |
| Text.StripSlice | ingest.py:34 | `strip()` yields a slice of the line, with only whitespace removed on either side, that neither starts nor ends with whitespace |
| Text.StripIdempotent | ingest.py:34 | stripping a stripped line changes nothing |
| Text.Split | ingest.py:31 | `split('\n')` yields at least one piece and no piece holds a newline |
| Text.SplitJoin | ingest.py:31-39 | splitting the newline-join of newline-free lines gives the lines back |
| Text.JoinSplit | ingest.py:31-39 | joining the pieces of a split gives the text back |
| Text.RunEnd | ingest.py:56 | a greedy character-class run consumes every matching character and stops at the first one that does not match |
| Text.SpaceThenRunUnique | ingest.py:56 | when the class holds no whitespace, `\s+` followed by a maximal class run can split the text only one way: at the end of the whitespace, with the run ending where the greedy scan stops |
| Text.NatToString | ingest.py:87 | `str(i+1)` is a non-empty string of ASCII digits |
| Text.NatToStringInjective | ingest.py:86-88 | distinct numbers print differently |
| Lines.KeepExact | ingest.py:33-38 | line `i` survives iff it is not blank and not rejected after stripping; the `k`-th survivor is the stripped `k`-th surviving line, in input order |
| Lines.KeepClean | ingest.py:33-38 | every surviving line is non-empty, is its own strip and passes the rule |
| Lines.NormalizeShape | ingest.py:31-39 | the output has no empty line, every line is stripped and passes the rule, and no character other than the newline appears that the input lacks |
| Lines.NormalizeIdempotent | ingest.py:31-39 | cleaning twice equals cleaning once |
| Regex.Split | ingest.py:58 | defines `re.split` for a pattern that never matches empty: text pieces between leftmost matches, each followed by the match's groups |
| Regex.SplitNoMatch | ingest.py:58 | where the pattern matches nowhere, `re.split` returns the whole text as the only piece |
| Regex.SplitShape | ingest.py:58 | with `g` groups per match, the split alternates one text piece and `g` group pieces, ending with a text piece |
| Regex.AlternatesPairs | ingest.py:56-58 | with one group, every odd-numbered piece is a captured group |
| Regex.AlternatesTriples | text_utils.py:41-42 | with two groups, every piece whose index is not a multiple of three is a captured group |
| Segments.TitleAtLatestHeader | ingest.py:65-72 | the title in force at a piece is the latest header piece before it, or the default title if none |
| Segments.WalkStep | ingest.py:65-78 | one step of the walk: a header piece becomes the title and is counted, a body piece adds one section under the current title, and any other piece changes nothing |
| Segments.HeaderCountZero | ingest.py:63-72 | the header counter is zero iff no header piece has been seen |
| Segments.SectionsExact | ingest.py:65-78 | piece `i` yields a section iff it is a body piece (non-empty, not a header, longer than 20); the `k`-th section is the `k`-th body piece under the title in force there, in order |
| Segments.SectionsWellFormed | ingest.py:65-78 | every body is stripped, longer than 20 and not a header; every title is the default or a header |
| Docs.SplitExt | ingest.py:61 | root plus extension is the path; the extension is empty or a dot followed by no dot or slash, and it never eats a name made only of dots; the extension is empty only when no dot in the last component follows a non-dot character |
| Docs.StemNoDot | ingest.py:61 | a name is its own subject iff it has no extension, which is always the case for a name without a dot |
| Docs.BaseName | ingest.py:94 | the base name is the whole suffix after the last slash: a suffix with no slash that is the whole path or is preceded by a slash |
| Docs.LowerAsciiLower | ingest.py:95 | lower-cased text holds no capital A-Z, and lower-casing again changes nothing |
| Docs.LowerAsciiCaseless | ingest.py:95 | two texts lower-case to the same text iff they are equal up to ASCII case |
| Docs.ExtensionCaseless | ingest.py:95-117 | the extension compares equal to a lower-case word such as `.pdf` iff it is that word in any ASCII case |
| Docs.MetaShape | ingest.py:75 | document metadata has exactly the keys `source`, `subject` and `article`, holding the source name, its extension-less stem and the title |
| Ingest.ReplaceNbsp | ingest.py:29 | no U+00A0 remains; each U+00A0 becomes a space and every other character is kept |
| Ingest.Cleaned | ingest.py:24-39 | defines `clean_text`: no-break spaces replaced, then the line clean-up with page numbers of one to three digits dropped |
| Ingest.CleanText | ingest.py:24-39 | the loop computes the cleaned text: no-break spaces replaced, lines stripped, blank lines and page numbers dropped |
| Ingest.CleanedShape | ingest.py:29-39 | cleaned text holds no U+00A0 and no empty line, and every line is stripped and not a page number |
| Ingest.CleanedKeepsExactly | ingest.py:31-39 | a line is dropped iff it strips to nothing or to fewer than four digits; four or more digits survive; order is preserved |
| Ingest.CleanedIdempotent | ingest.py:24-39 | cleaning cleaned text returns it unchanged |
| Ingest.KeywordEndAmong | ingest.py:56 | a match at `q` ends right after one of the listed words occurring at `q`, and starts with a non-space |
| Ingest.KeywordEndAmongFirst | ingest.py:56 | there is a match iff one of the listed words occurs at `q`, and the first listed word that occurs there decides where the match ends |
| Ingest.KeywordsExclusive | ingest.py:56 | the three introducer tokens never occur at the same position, so the order of the alternatives cannot change the match |
| Ingest.KeywordEnd | ingest.py:56 | an introducer match at `q` ends right after one of `Article`, `المادة` and its presentation-form spelling occurring at `q`, and starts with a non-space |
| Ingest.KeywordEndExact | ingest.py:56 | whichever introducer token occurs at `q` is matched, ending right after it; when none occurs there is no match |
| Ingest.IsHeaderExact | ingest.py:70 | the header test holds exactly for the pieces that start with `Article`, `المادة` or `اﻟﻤﺎدة` |
| Ingest.KeywordSlice | ingest.py:70 | any slice from `q` that covers the introducer passes the `re.match` header test |
| Ingest.NumberEnd | ingest.py:56 | after the introducer, `\s+(?:\d+|\w+(?:\s+\w+){0,4})` ends beyond its start, inside the text, on a non-space character |
| Ingest.NumberEndExact | ingest.py:56 | the tail matches iff whitespace at `k` is followed by a word character; when a digit follows, `\d+` is tried first and its whole run is the match; otherwise the match is the whole word there followed by the greedy `(?:\s+\w+){0,4}` |
| Ingest.MoreWordsEnd | ingest.py:56 | `(?:\s+\w+){0,4}` ends where it starts or right after a word character |
| Ingest.GroupAtExact | ingest.py:56 | a `\s+\w+` group starts at a position iff whitespace is there and a word character follows all of it |
| Ingest.MoreWordsGreedy | ingest.py:56 | `(?:\s+\w+){0,n}` is greedy: its end is reached by `m <= n` whole groups, each taking all its whitespace and its whole word, and when `m < n` no further group starts there |
| Ingest.HeaderEnd | ingest.py:56 | a heading match is an introducer followed by more text, ends inside the text and ends on a non-space |
| Ingest.HeaderEndAfter | ingest.py:56 | with an introducer token at `q`, the heading matches iff the tail matches right after that token, and ends where the tail does |
| Ingest.HeaderEndNone | ingest.py:56 | without an introducer token at `q` there is no heading there |
| Ingest.CapturedSlice | ingest.py:56 | the captured heading text passes the header test and has no surrounding whitespace |
| Ingest.HeadingAt | ingest.py:56 | the capture group matches at `q` iff a heading does; its one group is the text from `q` to the heading's end, a captured heading |
| Ingest.ArticleMarker | ingest.py:56 | a match at `p` of `(?:^|\n)(...)` is non-empty, stays in the text and has exactly one group, a captured heading |
| Ingest.ArticleMarkerExact | ingest.py:56 | `(?:^|\n)(...)` matches at `p` iff `p` is the start of the text and a heading starts there, or a newline at `p` is followed by a heading; `^` is tried first, the newline is consumed but not captured, and the group is the heading |
| Ingest.ArticleMarkerAdvances | ingest.py:56-58 | the marker pattern never matches the empty string |
| Ingest.PiecesAlternate | ingest.py:56-72 | every odd-numbered piece of the split is a heading, so it counts as a header and never becomes a document |
| Ingest.Segmented | ingest.py:41-91 | defines `smart_split`: the section documents of the walk, or the numbered chunks when the fallback fires |
| Ingest.SmartSplit | ingest.py:41-91 | the walk and the fallback together compute exactly the segmentation specified by `Segmented` |
| Ingest.WalkPieces | ingest.py:60-78 | the loop over the pieces yields exactly the section documents of `SectionsUpTo` over all pieces, and its counter equals the number of header pieces |
| Ingest.NumberParts | ingest.py:84-89 | the fallback loop numbers the chunks `Page/Part 1..n` in order |
| Ingest.StructuralDocsExact | ingest.py:65-78 | without the fallback, piece `i` yields a document iff, stripped, it is non-empty, is not a header and is longer than 20; each document's content is `Source: …\nSection: {title}\n\n{piece}` and its article is the title in force |
| Ingest.TitleIsLatestHeader | ingest.py:60-71 | the title in force is the latest header piece, or `Introduction` if there is none |
| Ingest.StructuralTitles | ingest.py:65-78 | every article title is `Introduction` or a header, and every body is longer than 20 characters and is not a header |
| Ingest.FallbackDocs | ingest.py:81-89 | when the fallback fires, every document is a chunk: the `k`-th is titled `Page/Part {k+1}` and prefixed `Source: …\nPart: {k+1}\n\n` |
| Ingest.PartTitlesDistinct | ingest.py:86-87 | fallback part titles are pairwise distinct |
| Ingest.SubjectEverywhere | ingest.py:61-89 | in both branches every document has exactly the keys `source`, `subject`, `article`, with the source name and its extension-less stem |
| Ingest.SegmentedEmpty | ingest.py:58-81 | empty text yields no document |
| Ingest.PdfTextJoin | ingest.py:108-110 | the page loop yields the pages joined by newlines, plus a final newline |
| Ingest.ReadPdf | ingest.py:108-110 | the page loop computes `PdfText`: each page followed by a newline, in order |
| Ingest.Loaded | ingest.py:93-123 | defines `load_file`: dispatch on the lower-cased extension, clean the joined text and segment it under the base name |
| Ingest.LoadFile | ingest.py:93-123 | `load_file` dispatches on the lower-cased extension, cleans the text and segments it under the base name; a reader failure yields `[]` |
| Ingest.LoadedEmpty | ingest.py:93-123 | a reader failure, an unsupported extension or a file without pages gives `[]`; every document's source is the base name |
| TextUtils.FixArabic | text_utils.py:9-21 | `None` or `""` gives `""`; text without a U+0600–U+06FF code point is returned as is; otherwise the repair's result, or the text when the repair raises |
| TextUtils.FixArabicGuards | text_utils.py:13-21 | the result is the input unless the text holds Arabic and the repair succeeded with that result |
| TextUtils.CleanText | text_utils.py:23-34 | the loop computes the clean-up that drops blank lines and every all-digit line |
| TextUtils.CleanTextShape | text_utils.py:27-34 | the output has no empty line and no all-digit line, every line is stripped, and cleaning again changes nothing |
| TextUtils.CleanTextKeepsExactly | text_utils.py:27-34 | a line is dropped iff it strips to nothing or to digits only, whatever its length; survivors are stripped and in order |
| TextUtils.TailRun | text_utils.py:41 | a match of `\s+` then a class run ends beyond its start, inside the text, on a non-space |
| TextUtils.TailRunExact | text_utils.py:41 | `\s+` then a greedy class run matches iff whitespace is followed by a non-empty run of the class, and it ends exactly where that run stops |
| TextUtils.HeadingEndAmong | text_utils.py:41 | a match at `q` ends inside the text on a non-space and starts with a non-space |
| TextUtils.HeadingEndAmongFirst | text_utils.py:41 | the first alternative whose word occurs at `q` decides: the match is that alternative's tail run after the word |
| TextUtils.HeadingEndAmongNone | text_utils.py:41 | when no alternative's word occurs at `q`, nothing matches |
| TextUtils.HeadingAmongSlice | text_utils.py:41 | the same alternative matches the captured slice on its own and ends at its end |
| TextUtils.HeadingEnd | text_utils.py:41 | a heading match (`Article\s+\d+` or `المادة\s+[؀-ۿ0-9]+`) ends inside the text and neither starts nor ends with whitespace |
| TextUtils.HeadingEndExact | text_utils.py:41 | `Article\s+\d+|المادة\s+[؀-ۿ0-9]+` matches at `q` iff one of the two words occurs there followed by whitespace and a non-empty run of its numeral class; it ends where that run stops |
| TextUtils.IsArticleHeaderExact | text_utils.py:53 | the header test holds exactly for the pieces starting with `Article`, whitespace and a decimal digit, or with `المادة`, whitespace and a character of `[؀-ۿ0-9]` |
| TextUtils.HeadingSlice | text_utils.py:53 | a captured heading passes the `re.match` header test |
| TextUtils.HeadingMatch | text_utils.py:41 | the groups match at `q` iff a heading does; the two groups are the lead (newline or nothing) and the text from `q` to the heading's end |
| TextUtils.ArticleMatch | text_utils.py:41-42 | a match of `(^|\n)(...)` is non-empty and yields two group pieces, neither of which can become a body |
| TextUtils.ArticleMatchExact | text_utils.py:41 | `(^|\n)(...)` matches at `p` iff `p` is the start of the text and a heading starts there, or a newline at `p` is followed by a heading; `^` is tried first and gives an empty first group, otherwise the first group is the newline, and the second is the heading |
| TextUtils.ArticleMatchAdvances | text_utils.py:41-42 | the pattern never matches the empty string |
| TextUtils.ByArticles | text_utils.py:36-66 | defines `split_text_by_articles`: one `{title}\n{piece}` document per body piece under the title in force |
| TextUtils.SplitTextByArticles | text_utils.py:36-66 | the walk computes exactly the documents specified by `ByArticles` |
| TextUtils.WalkArticles | text_utils.py:44-65 | the loop over the pieces yields exactly the article documents of `SectionsUpTo` over all pieces, titled `Preamble/Introduction` until the first heading |
| TextUtils.ByArticlesExact | text_utils.py:48-65 | piece `i` yields a document iff, stripped, it is non-empty, not a heading and longer than 20; the content is `{title}\n{piece}` under the title in force, in piece order |
| TextUtils.GroupPiecesNeverBodies | text_utils.py:41-57 | the newline and heading pieces that the two groups add never become documents |
| TextUtils.ByArticlesWellFormed | text_utils.py:45-57 | every title is `Preamble/Introduction` or a heading; every body is longer than 20 and not a heading; there is no size fallback |
| TextUtils.ByArticlesMetadata | text_utils.py:46-64 | every document has exactly `source`, `subject` (the stem) and `article` (its title), and its content begins with the title and a newline |
| RagEngine.Tag | rag_engine.py:39-40 | defines the tagging of one parent's children with its id; it keeps their number |
| RagEngine.TagAt | rag_engine.py:39-40 | the `k`-th tagged child is the `k`-th child with its content kept and `doc_id` set to the parent id |
| RagEngine.TagBackReference | rag_engine.py:39-40 | every tagged child carries the parent id under `doc_id` and keeps every other metadata entry |
| RagEngine.Children | rag_engine.py:35-41 | defines `full_docs`: the tagged children of each parent, concatenated in parent order |
| RagEngine.ChildrenTagged | rag_engine.py:35-41 | the batch holds exactly the tagged children of every parent |
| RagEngine.ChildrenInOrder | rag_engine.py:35-41 | the batch lists the children parent by parent, in document order |
| RagEngine.ChildrenBackReference | rag_engine.py:38-41 | every child sent carries `doc_id` equal to one of the ids used |
| RagEngine.Assign | rag_engine.py:35-44 | defines the docstore after the `mset` calls: each parent stored under its id, in document order |
| RagEngine.AssignKeys | rag_engine.py:44 | the docstore gains exactly the ids used, and other entries are left alone |
| RagEngine.AssignDistinct | rag_engine.py:35-44 | with distinct ids the docstore maps `ids[i]` to `documents[i]` |
| RagEngine.AssignLastWins | rag_engine.py:35-44 | with repeated ids the last document written under an id is the one stored |
| RagEngine.FreshIds | rag_engine.py:31-32 | one id per document, pairwise distinct and not yet in the docstore |
| RagEngine.ParentIds | rag_engine.py:55-58 | defines the collected parent ids: the `doc_id` of each hit that carries one, in hit order |
| RagEngine.ParentIdsExact | rag_engine.py:55-58 | an id is collected iff some hit carries it under `doc_id`; hits without it are ignored |
| RagEngine.Dedup | rag_engine.py:59 | the de-duplicated ids are distinct and are exactly the collected ids, in no promised order |
| RagEngine.Fetch | rag_engine.py:65-77 | defines the answer of `mget` and its loop: per id, the stored document, the unpickled bytes, or nothing for a missing entry or failed unpickling |
| RagEngine.FetchExact | rag_engine.py:65-77 | each id yields at most one document, and a document is returned iff some id resolves to it |
| RagEngine.RetrievalBound | rag_engine.py:52-77 | the answer has at most one document per distinct parent id, hence no more than the number of hits, and at most 5 when the search returns at most 5 |
| RagEngine.RetrievalExact | rag_engine.py:52-77 | a document is returned iff some hit names a parent whose entry is a document, or bytes that unpickle to it |
| RagEngine.StoredThenFetched | rag_engine.py:44-77 | a parent written under a distinct id is fetched back unchanged by that id |
| RagEngine.ChildFindsParent | rag_engine.py:35-77 | after a batch with distinct ids, every child's parent id resolves to the parent it was split from |
| RagEngine.ParentDocumentRetriever.constructor | rag_engine.py:16-24 | a retriever starts over the given docstore and child splitter, with nothing sent yet by this retriever |
| RagEngine.ParentDocumentRetriever.AddDocuments | rag_engine.py:26-47 | no documents give no change; otherwise each case is stated: the docstore holds every parent under its id, one batch of tagged children is sent last, or the exception that stops the loop (short `ids`, no docstore, vectorstore failure) leaves the partial writes and sends nothing; the back-reference invariant is kept |
| RagEngine.ParentDocumentRetriever.TagAll | rag_engine.py:39-40 | the inner loop tags the children exactly as `Tag` specifies |
| RagEngine.ParentDocumentRetriever.GetRelevantDocuments | rag_engine.py:49-77 | searches with `k = 5`; no parent id gives `[]` without consulting the docstore; otherwise the answer is `Fetch` over the de-duplicated ids, or a failure when there is no docstore |
| RagEngine.Engine.constructor | rag_engine.py:134-152 | the engine's retriever is built over the loaded docstore and the engine's own child splitter, with nothing sent and `docstore.pkl` untouched |
| RagEngine.Engine.IngestFile | rag_engine.py:154-180 | no documents give `false` and nothing changes; the result is `true` iff there were documents, a docstore, and the vectorstore call, the `open` and the dump all succeeded; for each failure the docstore, the sent batches and `docstore.pkl` are stated: no docstore changes nothing, a vectorstore failure keeps the stored parents and sends nothing, a failed `open` leaves the file alone, a failed dump leaves it truncated; on success the file holds the docstore with every new parent under a fresh id |

## Left out

- PDF and DOCX reading (`fitz`, `pdfplumber`, `python-docx`) is file parsing. `Ingest.LoadFile` takes the page or paragraph texts the reader produced, or `None` when the reader raised.
- `RecursiveCharacterTextSplitter` (sizes 1000/150 and 400/100) is library code. It is the `chunk` parameter and the `childSplitter` field; no window count or overlap is claimed. `split_documents` copying each child's metadata before tagging is taken as given.
- Chroma, the bge-m3 embeddings and similarity search are foreign calls. Search is a function parameter and the vectorstore's contents are only the recorded batches. Nothing relates search results to what was stored.
- `pickle.loads`, and the pickle load and dump of `docstore.pkl`, are I/O. Unpickling is a parameter that yields a `Document` or `None` when `pickle.loads` raises. The source appends whatever `pickle.loads` returns, so unpickled bytes that decode to `None` or to an object other than a `Document` are not modelled. The write is the `openOk` and `dumpOk` flags plus the `saved` field, which records only whether the file is untouched, complete or truncated, not the bytes a partial dump leaves.
- `arabic_reshaper.reshape` and `get_display` are external. They are the `repair` parameter of `TextUtils.FixArabic`.
- `load_file_structured` in `text_utils.py` is the old loader, which the live path does not use. Its helpers are modelled; the loader itself is not.
- `ingest.main`, `ingest_all_data`, `get_qa_chain`, the prompt, the LLM, `app.py`, `config.py` and `verify_ollama.py` are outside the core.
- The lazy properties of `RAGEngine` are not modelled. In particular, a `None` store is reloaded on every access. `RagEngine.Engine` builds its retriever once, over the docstore it is given.
- Printing and the debug output of `load_file` are left out.
- `Text.IsSpace` is exactly Python's whitespace set. `\d`, `\w` and `str.isdigit` are approximated:
  - `\d` is ASCII, Arabic-Indic and extended Arabic-Indic digits;
  - `str.isdigit` is those plus superscript 1, 2 and 3;
  - `\w` is ASCII letters, `_`, those digits and the Arabic letters, including presentation forms. The Arabic letters are the code points of general category Lo or Lm in the Arabic block and the two presentation-form blocks; their combining marks (Mn) are not `\w`.
  Letters and digits of other scripts are not recognised.
- `Docs.SplitExt` and `Docs.BaseName` follow POSIX `os.path` rules, where only `/` separates path parts. On Windows, `ntpath` also splits on `\` (and on a drive colon), so a path such as `data\x.pdf` would give another base name there.
- `Docs.LowerAscii`: lower-cases ASCII letters only (Python's `lower()` covers all of Unicode). This makes no difference for the `.pdf`/`.docx` comparison except for exotic capitals.
- `RagEngine.FreshIds`: `uuid4` is replaced by a supplier of ids that are distinct and not yet stored. Random UUIDs have this property only with overwhelming probability.
- `RagEngine.ParentDocumentRetriever.GetRelevantDocuments`: the order of `list(set(ids))` is a nondeterministic choice returned as the ghost `order`. No ordering of results is asserted.
- Exceptions raised by the child splitter or the chunk splitter are not modelled. Only the exceptions named in `AddOutcome`, a reader failure and a failed docstore write are.

## Notes on behaviour

- Only U+00A0 is replaced by `clean_text`. Other invisible spaces survive inside a line; `strip()` removes them at the ends only.
- One heading with a long body is not enough to avoid the fallback: it fires with fewer than two headings, not with fewer than one.
- When `docstore.pkl` is missing or unreadable, the engine's store is `None`. Then `add_documents` raises at its first `mset`, so `ingest_file` returns `false` for every file. A query that finds parent ids raises at `mget` instead of returning `[]`. The model keeps this behaviour: `NoDocstore` in `AddDocuments` and `None` in `GetRelevantDocuments`.
- Parents are written to the docstore before the children reach the vectorstore. A vectorstore failure therefore leaves stored parents with no indexed children, and never the reverse. `ParentDocumentRetriever.Valid` is the invariant that every child this retriever has sent points at a stored parent.
- `add_documents` with an `ids` list shorter than the documents writes the first `len(ids)` parents and then raises `IndexError`.
