# Chunking, API-key check and PDF ingestion, modelled in Dafny

This project models the logic of a small document pipeline: an API gateway
that lets requests through by a shared-secret header, and an ingestion
service that turns a PDF into overlapping text chunks.

- `chunking.dfy` (module `Chunking`): `chunk_text`, the sliding-window
  splitter. `ChunkText` is the service's `while` loop, proved equal to the
  recursive specification `Chunks`. The lemmas state which slice of the text
  each chunk is, how many chunks there are (ceil of length over stride), that
  no chunk is empty or longer than the window, how neighbouring chunks
  overlap, and that the text is rebuilt from the chunks. They also cover the
  edge cases the service's tests pin down: the empty text, a short text, a
  text of exactly the window size.
- `auth.dfy` (module `Auth`): `is_public_endpoint` and the decision of
  `verify_api_key`. Raising an HTTP exception becomes an `AuthOutcome` value:
  accepted, or rejected with the status, detail and headers of the exception.
  The configured key is a parameter.
- `ingestion.dfy` (module `Ingestion`): the `/process_pdf` handler. It
  covers the `.pdf` filename gate, the loop that keeps pages with text under
  their 1-based numbers, the single-space join, and the chunker call. It also
  covers the page and chunk counts and the response's chunk list, together
  with the error answers (400, and 500 with the exception's message).
- `wrappers.dfy` (modules `Wrappers`, `Http`): `Option`, `Result` and the
  HTTP error value.

The PDF library is an input. Its result is a sequence of optional page
texts, or the message of the exception it raised. The database is an input
too: the id it assigns to the new record, or the message of an exception
raised before the commit, or an assigned id together with the message of an
exception raised after the commit (by the refresh or the close).
The chunk size, the overlap and the API key are parameters.

Notes on what the code does:

- A text shorter than the chunk size gives one chunk only when it is no
  longer than the stride (`chunk_size - overlap`). For example, 950
  characters with 1000/100 give two chunks, `[0, 950)` and `[900, 950)`
  (`Chunking.SingleChunk`, `Chunking.DocumentedExamples`).
- A text of exactly `chunk_size` characters gives exactly two chunks only
  when `overlap <= chunk_size / 2`. With a larger overlap the second window
  does not yet reach the end, and more chunks follow
  (`Chunking.ExactSizeChunkCount`; `Chunking.ExactSizeLargeOverlap`: 10
  characters at 10/6 give 3 chunks).
- The 500 answer carries the exception's message after
  `"PDF processing failed: "`.
- When the refresh or the close raises after the commit, the answer is 500
  but the record stays stored (`Ingestion.ProcessPdf`).
- `overlap < chunk_size` is not checked by the configuration
  (services/ingestion_service/config.py:13-14), and the loop does not
  terminate without it. Here it is the `requires` of the chunker and of
  `ProcessPdf`.

## Model

| member | source | states |
|---|---|---|
| `Chunking.ChunkText` | services/ingestion_service/utils.py:29-41 | The loop returns exactly the chunks of the specification, and terminates when `overlap < chunkSize`. Their number is ceil(\|text\| / stride). Chunk i is the clipped slice starting at i·stride, and that start lies inside the text. |
| `Chunking.ChunkAt` | services/ingestion_service/utils.py:35-39 | Chunk i is `text[i*stride : min(i*stride + chunk_size, len(text))]`, and `i*stride < len(text)`. |
| `Chunking.ChunkBounds` | services/ingestion_service/utils.py:36-38 | Every chunk is non-empty and at most `chunk_size` characters long. |
| `Chunking.ChunkCount` | services/ingestion_service/utils.py:29-39 | The number of chunks k is the least number of strides covering the text: `len(text) <= k*stride` and `(k-1)*stride < len(text)`. k is 0 exactly when the text is empty. |
| `Chunking.WindowCountIsCeil` | services/ingestion_service/utils.py:35-39 | The recursive window count is ceil(m / stride): `m <= k*stride` and, for m > 0, `(k-1)*stride < m`. |
| `Chunking.SingleChunk` | tests/test_ingestion_service.py:34-40 | The result is the single chunk `[text]` exactly when `0 < len(text) <= chunk_size - overlap`. |
| `Chunking.ExactSizeTwoChunks` | tests/test_ingestion_service.py:43-52 | A text of exactly `chunk_size` characters, with `0 < overlap <= chunk_size/2`, gives two chunks: the whole text, then its last `overlap` characters. |
| `Chunking.ExactSizeChunkCount` | services/ingestion_service/utils.py:35-39 | A text of exactly `chunk_size` characters gives two chunks exactly when `0 < overlap <= chunk_size/2`. Without overlap it gives one chunk, and with an overlap above half the chunk size more than two. |
| `Chunking.ExactSizeLargeOverlap` | services/ingestion_service/utils.py:35-39 | The smallest such case: 10 characters at 10/6 give three chunks, `[text, text[4:], text[8:]]`. |
| `Chunking.NeighbourOverlap` | services/ingestion_service/utils.py:36-39 | Every chunk but the last is at least a stride long. What chunk i holds past its first stride is a prefix of chunk i+1. When chunk i has full length, its last `overlap` characters equal the first `overlap` of chunk i+1. |
| `Chunking.Reconstruction` | services/ingestion_service/utils.py:35-39 | Taking the first stride of every chunk but the last, then the whole last chunk, gives back the text exactly. |
| `Chunking.ReassembleFrom` | services/ingestion_service/utils.py:35-39 | From any start inside the text, the chunks the loop still appends rebuild the rest of the text. |
| `Chunking.LastChunkIsSuffix` | services/ingestion_service/utils.py:35-39 | For non-empty text the last chunk starts inside the text at (k-1)·stride and runs to its end. |
| `Chunking.DocumentedExamples` | tests/test_ingestion_service.py:22-71 | The tested cases at 1000/100. Empty text gives no chunks. 2500 characters give 3 chunks, the first 1000 long. 1500 characters give 2 chunks whose 100-character overlap matches. 1000 characters give chunks of 1000 and 100. 950 characters give `[text, text[900:]]`. Texts of at most 900 characters give `[text]`. |
| `Auth.IsPublicEndpoint` | services/api_gateway/auth.py:18-37 | A path is public exactly when it is "/health" or "/metrics", or starts with "/docs", "/redoc" or "/openapi". |
| `Auth.VerifyApiKey` | services/api_gateway/auth.py:40-73 | Public paths pass whatever the header holds. On other paths an absent or empty header gives the 401 with `WWW-Authenticate: ApiKey`, and any other value but the exact key gives the 403. The request passes exactly when the path is public or the header equals a non-empty key. |
| `Auth.OutcomesExhaustive` | services/api_gateway/auth.py:58-73 | Every answer is one of: pass, the 401 error, the 403 error. A rejection's status is 401 or 403, and only the 401 carries the challenge header. |
| `Auth.PublicPathExamples` | services/api_gateway/auth.py:27-37 | All five listed paths are public, and so are "/docs/oauth2-redirect", "/docsXYZ", "/openapi.yaml" and "/redoc/static". |
| `Auth.ProtectedPathExamples` | services/api_gateway/auth.py:27-37 | "/upload", "/health/x", "/metrics/x", "" and "/Docs" are not public: "/health" and "/metrics" match exactly only, and the prefixes are case-sensitive. |
| `Auth.NotPublicBySecondChar` | services/api_gateway/auth.py:30-37 | A path other than "/health" and "/metrics" whose second character is not 'd', 'r' or 'o' is not public. |
| `Ingestion.PdfFilenameExamples` | services/ingestion_service/main.py:60 | The `.pdf` gate is case-sensitive and needs the dot: "a.pdf" and ".pdf" pass; "a.PDF", "pdf" and "a.pdf.txt" are refused. |
| `Ingestion.CollectPages` | services/ingestion_service/main.py:71-78 | The loop keeps exactly the pages whose text is neither None nor empty. Each keeps its 1-based number and its own text, in increasing page order. |
| `Ingestion.KeptPagesSound` | services/ingestion_service/main.py:72-78 | Every kept entry is a page with non-empty text under its own 1-based number, and the numbers strictly increase. |
| `Ingestion.KeptPagesComplete` | services/ingestion_service/main.py:72-78 | Every page with non-empty text is kept, under its 1-based number. |
| `Ingestion.KeptPagesCount` | services/ingestion_service/main.py:72-95 | The page count (`len(text_by_page)`) is at most the PDF's page count, and equal to it exactly when every page has text. |
| `Ingestion.JoinAppend` | services/ingestion_service/main.py:81 | Joining one more page text adds exactly one space and then that text. |
| `Ingestion.JoinLength` | services/ingestion_service/main.py:81 | The joined text has the length of all parts plus one separator between each neighbouring pair. |
| `Ingestion.JoinEmpty` | services/ingestion_service/main.py:81 | When no part is empty, the joined text is empty exactly when there are no parts. |
| `Ingestion.FullTextEmpty` | services/ingestion_service/main.py:71-81 | The combined text is empty exactly when no page had text. |
| `Ingestion.NoTextNoChunks` | services/ingestion_service/main.py:81-88 | The chunker returns no chunks exactly when no page had text. |
| `Ingestion.ChunkListShape` | services/ingestion_service/main.py:111-118 | The response's chunk list holds the chunks in order. Entry i has `chunk_id` i, and every `char_count` is the length of its text. |
| `Ingestion.ProcessPdf` | services/ingestion_service/main.py:60-125 | A name not ending in ".pdf" gives 400 and stores nothing. An extraction exception, or a database exception before the commit, gives 500, "PDF processing failed: " plus its message, and stores nothing. A database exception after the commit gives the same 500, but the record with the computed counts stays stored. Otherwise it stores one record. The response holds the assigned id, the name, the number of pages with text, the number of chunks of the space-joined text, and the chunk list. The record's counts are the response's, and `total_chunks` is the length of the chunk list. |

## Left out

- PDF text extraction (pdfplumber) is a foreign library. It is an input: the optional page texts, or the exception message. A failure midway through the pages is one failure of the whole extraction.
- The database session (add, commit, refresh, id assignment, close) is I/O. It is an input: the assigned id, or the exception message. The stored record is a returned value, and the upload timestamp is not modelled.
- `list_documents` (newest-first listing) is a database query with no logic of its own, so it is left out.
- The health and info endpoints, FastAPI wiring, async handling, reading the upload (`file.read()`) and the Pydantic schemas are framework plumbing. The schemas only shape the response datatypes.
- Reading `API_KEY`, `CHUNK_SIZE` and `CHUNK_OVERLAP` from the environment is configuration parsing; these values are parameters.
- Logging in the gateway's key check is left out.
- The gateway's upload forwarding, size limit and timeout mapping are not part of this model. No such code is in the gateway sources (services/api_gateway/main.py defines only `/health` and `/info`).
- The embeddings service is not part of this model.
- A missing upload filename (`None`) is not modelled: the filename is a string.
- Chunking.ChunkText: the chunk size and overlap are natural numbers with `overlap < chunk_size` as precondition (also of `Ingestion.ProcessPdf`). The configuration accepts any integers; negative settings (a negative overlap skips characters between chunks, so `Chunking.Reconstruction` would not hold) are not modelled.
- Text is a sequence of code points, as Python's `len` counts. Graphemes are not modelled.
