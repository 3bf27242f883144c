/**
 * The ingestion service's PDF endpoint (process_pdf in
 * services/ingestion_service/main.py), without the PDF library and the
 * database: extraction is given as the list of per-page texts the library
 * would return (None where a page yields no text), or the message of the
 * exception it raised; the database is given as the id it assigns to the
 * new record, or the message of the exception it raised.
 */
module Ingestion {
  import opened Wrappers
  import opened Http
  import Chunking

  /** One entry of text_by_page: a 1-based page number and that page's text. */
  datatype PageText = PageText(page: nat, text: string)

  /** One entry of the response's chunk list. */
  datatype ChunkResponse = ChunkResponse(chunkId: nat, text: string, charCount: nat)

  /** The body of a successful response. */
  datatype ProcessPdfResponse = ProcessPdfResponse(
    documentId: nat,
    filename: string,
    totalPages: nat,
    totalChunks: nat,
    chunks: seq<ChunkResponse>)

  /** The metadata record the service stores for a processed document. */
  datatype DocumentRecord = DocumentRecord(id: nat, filename: string, totalPages: nat, totalChunks: nat)

  /**
   * What the database session does with the new record: the commit succeeds
   * and the refresh and close after it too (the id it assigned); something
   * raises before the commit (opening the session, add or commit itself), so
   * nothing is stored; or the commit succeeds and the refresh or the close
   * raises afterwards, so the record stays stored although the request fails.
   */
  datatype DatabaseOutcome =
    | Saved(id: nat)
    | FailedBeforeCommit(message: string)
    | FailedAfterCommit(id: nat, message: string)

  const NotPdf: HttpError := HttpError(400, "Only PDF files are allowed", map[])

  /** The 500 answer: the fixed prefix, then the message of the exception. */
  function ProcessingFailed(message: string): HttpError
  {
    HttpError(500, "PDF processing failed: " + message, map[])
  }

  /** Python's str.endswith. */
  predicate EndsWith(s: string, suffix: string)
  {
    |suffix| <= |s| && s[|s| - |suffix|..] == suffix
  }

  /** The filename gate: a case-sensitive ".pdf" ending. */
  predicate IsPdfFilename(filename: string)
  {
    EndsWith(filename, ".pdf")
  }

  /** The gate is case-sensitive and needs the dot: ".PDF" and a bare "pdf" are refused. */
  lemma PdfFilenameExamples()
    ensures IsPdfFilename("a.pdf") && IsPdfFilename(".pdf")
    ensures !IsPdfFilename("a.PDF") && !IsPdfFilename("pdf") && !IsPdfFilename("a.pdf.txt")
  {
    assert "a.pdf"[1..] == ".pdf";
    assert "a.pdf.txt"[5..] != ".pdf";
  }

  // ---------------------------------------------------------------------------
  // Pages: keep the ones with text, in page order
  // ---------------------------------------------------------------------------

  /** Whether a page's extracted text counts: Python's `if text:` rejects None and "". */
  predicate HasText(page: Option<string>)
  {
    page.Some? && page.value != ""
  }

  /** text_by_page after the first |pages| pages have been seen. */
  function KeptPages(pages: seq<Option<string>>): seq<PageText>
  {
    if |pages| == 0 then []
    else
      var kept := KeptPages(pages[..|pages| - 1]);
      var last := pages[|pages| - 1];
      if HasText(last) then kept + [PageText(|pages|, last.value)] else kept
  }

  /** The loop that builds text_by_page, numbering pages from 1. */
  method CollectPages(pages: seq<Option<string>>) returns (kept: seq<PageText>)
    ensures kept == KeptPages(pages)
    ensures forall i :: 0 <= i < |kept| ==>
              1 <= kept[i].page <= |pages| && pages[kept[i].page - 1] == Some(kept[i].text) && kept[i].text != ""
    ensures forall i, j :: 0 <= i < j < |kept| ==> kept[i].page < kept[j].page
    ensures forall q :: 0 <= q < |pages| && HasText(pages[q]) ==>
              exists i :: 0 <= i < |kept| && kept[i] == PageText(q + 1, pages[q].value)
  {
    kept := [];
    var pageNum := 1;
    while pageNum <= |pages|
      invariant 1 <= pageNum <= |pages| + 1
      invariant kept == KeptPages(pages[..pageNum - 1])
    {
      var text := pages[pageNum - 1];
      assert pages[..pageNum][..pageNum - 1] == pages[..pageNum - 1];
      if text.Some? && text.value != "" {
        kept := kept + [PageText(pageNum, text.value)];
      }
      pageNum := pageNum + 1;
    }
    assert pages[..|pages|] == pages;
    KeptPagesSound(pages);
    KeptPagesComplete(pages);
  }

  /** Every kept entry is a page with text, under its own number, and the numbers increase. */
  lemma {:induction false} KeptPagesSound(pages: seq<Option<string>>)
    ensures forall i :: 0 <= i < |KeptPages(pages)| ==>
              1 <= KeptPages(pages)[i].page <= |pages| &&
              pages[KeptPages(pages)[i].page - 1] == Some(KeptPages(pages)[i].text) &&
              KeptPages(pages)[i].text != ""
    ensures forall i, j :: 0 <= i < j < |KeptPages(pages)| ==> KeptPages(pages)[i].page < KeptPages(pages)[j].page
  {
    if |pages| > 0 {
      var init := pages[..|pages| - 1];
      KeptPagesSound(init);
      var prev := KeptPages(init);
      var kept := KeptPages(pages);
      var last := pages[|pages| - 1];
      assert kept == if HasText(last) then prev + [PageText(|pages|, last.value)] else prev;
      forall i | 0 <= i < |prev|
        ensures kept[i] == prev[i]
        ensures 1 <= kept[i].page <= |init| && pages[kept[i].page - 1] == Some(kept[i].text) && kept[i].text != ""
      {
        assert init[prev[i].page - 1] == pages[prev[i].page - 1];
      }
    }
  }

  /** Every page with text is kept, under its 1-based number. */
  lemma {:induction false} KeptPagesComplete(pages: seq<Option<string>>)
    ensures forall q :: 0 <= q < |pages| && HasText(pages[q]) ==>
              exists i :: 0 <= i < |KeptPages(pages)| && KeptPages(pages)[i] == PageText(q + 1, pages[q].value)
  {
    if |pages| > 0 {
      var init := pages[..|pages| - 1];
      KeptPagesComplete(init);
      var prev := KeptPages(init);
      var last := pages[|pages| - 1];
      assert KeptPages(pages) == if HasText(last) then prev + [PageText(|pages|, last.value)] else prev;
      forall q | 0 <= q < |pages| && HasText(pages[q])
        ensures exists i :: 0 <= i < |KeptPages(pages)| && KeptPages(pages)[i] == PageText(q + 1, pages[q].value)
      {
        if q == |pages| - 1 {
          assert KeptPages(pages)[|KeptPages(pages)| - 1] == PageText(q + 1, pages[q].value);
        } else {
          assert init[q] == pages[q];
          var i :| 0 <= i < |prev| && prev[i] == PageText(q + 1, init[q].value);
          assert KeptPages(pages)[i] == prev[i];
        }
      }
    }
  }

  /** The reported page count is the number of pages with text, never more than the PDF has. */
  lemma {:induction false} KeptPagesCount(pages: seq<Option<string>>)
    ensures |KeptPages(pages)| <= |pages|
    ensures |KeptPages(pages)| == |pages| <==> forall p :: 0 <= p < |pages| ==> HasText(pages[p])
  {
    if |pages| > 0 {
      var init := pages[..|pages| - 1];
      KeptPagesCount(init);
      assert forall p :: 0 <= p < |init| ==> init[p] == pages[p];
    }
  }

  // ---------------------------------------------------------------------------
  // The combined text
  // ---------------------------------------------------------------------------

  /** `[page["text"] for page in text_by_page]`. */
  function PageTexts(kept: seq<PageText>): seq<string>
  {
    seq(|kept|, i requires 0 <= i < |kept| => kept[i].text)
  }

  /** `" ".join(parts)`. */
  function JoinWithSpace(parts: seq<string>): string
  {
    if |parts| == 0 then ""
    else if |parts| == 1 then parts[0]
    else parts[0] + " " + JoinWithSpace(parts[1..])
  }

  function TotalLength(parts: seq<string>): nat
  {
    if |parts| == 0 then 0 else |parts[0]| + TotalLength(parts[1..])
  }

  /** Appending a part adds exactly one space before it. */
  lemma {:induction false} JoinAppend(parts: seq<string>, part: string)
    requires |parts| > 0
    ensures JoinWithSpace(parts + [part]) == JoinWithSpace(parts) + " " + part
  {
    if |parts| > 1 {
      assert (parts + [part])[1..] == parts[1..] + [part];
      JoinAppend(parts[1..], part);
    }
  }

  /** The joined text holds every part plus one separator between each neighbouring pair. */
  lemma {:induction false} JoinLength(parts: seq<string>)
    requires |parts| > 0
    ensures |JoinWithSpace(parts)| == TotalLength(parts) + |parts| - 1
  {
    if |parts| > 1 {
      JoinLength(parts[1..]);
    }
  }

  /** When no part is empty, the joined text is empty exactly when there are no parts. */
  lemma JoinEmpty(parts: seq<string>)
    requires forall i :: 0 <= i < |parts| ==> parts[i] != ""
    ensures JoinWithSpace(parts) == "" <==> parts == []
  {
    if |parts| > 0 {
      JoinLength(parts);
      assert |parts[0]| > 0;
      assert TotalLength(parts) >= |parts[0]|;
    }
  }

  /** The text the chunker receives is empty exactly when no page had text. */
  lemma FullTextEmpty(pages: seq<Option<string>>)
    ensures JoinWithSpace(PageTexts(KeptPages(pages))) == "" <==> KeptPages(pages) == []
  {
    KeptPagesSound(pages);
    JoinEmpty(PageTexts(KeptPages(pages)));
  }

  // ---------------------------------------------------------------------------
  // The response's chunk list
  // ---------------------------------------------------------------------------

  /** `[{"chunk_id": i, "text": chunk, "char_count": len(chunk)} for i, chunk in enumerate(chunks)]`. */
  function BuildChunkList(chunks: seq<string>): seq<ChunkResponse>
  {
    seq(|chunks|, i requires 0 <= i < |chunks| => ChunkResponse(i, chunks[i], |chunks[i]|))
  }

  /** The texts of a chunk list, in order. */
  function ChunkTexts(entries: seq<ChunkResponse>): seq<string>
  {
    seq(|entries|, i requires 0 <= i < |entries| => entries[i].text)
  }

  /**
   * The list keeps the chunks' order and nothing else: its texts are the
   * chunks, entry i has id i, and every count is its text's length.
   */
  lemma ChunkListShape(chunks: seq<string>)
    ensures ChunkTexts(BuildChunkList(chunks)) == chunks
    ensures forall i :: 0 <= i < |BuildChunkList(chunks)| ==>
              BuildChunkList(chunks)[i].chunkId == i &&
              BuildChunkList(chunks)[i].charCount == |BuildChunkList(chunks)[i].text|
  {
  }

  // ---------------------------------------------------------------------------
  // The endpoint
  // ---------------------------------------------------------------------------

  /**
   * process_pdf. The filename gate answers 400 before anything is read or
   * stored; an exception of the extraction, or of the database before its
   * commit, answers 500 with its message and stores nothing. An exception
   * after the commit also answers 500, but the record is stored. On success
   * one record is stored, whose counts are those of the response.
   */
  method ProcessPdf(
    filename: string,
    extraction: Result<seq<Option<string>>, string>,
    chunkSize: nat,
    overlap: nat,
    database: DatabaseOutcome)
    returns (response: Result<ProcessPdfResponse, HttpError>, stored: Option<DocumentRecord>)
    requires overlap < chunkSize
    ensures !IsPdfFilename(filename) ==> response == Failure(NotPdf) && stored == None
    ensures IsPdfFilename(filename) && extraction.Failure? ==>
              response == Failure(ProcessingFailed(extraction.error)) && stored == None
    ensures IsPdfFilename(filename) && extraction.Success? && database.FailedBeforeCommit? ==>
              response == Failure(ProcessingFailed(database.message)) && stored == None
    ensures IsPdfFilename(filename) && extraction.Success? && database.FailedAfterCommit? ==>
              var kept := KeptPages(extraction.value);
              var chunks := Chunking.Chunks(JoinWithSpace(PageTexts(kept)), chunkSize, overlap);
              response == Failure(ProcessingFailed(database.message)) &&
              stored == Some(DocumentRecord(database.id, filename, |kept|, |chunks|))
    ensures IsPdfFilename(filename) && extraction.Success? && database.Saved? ==>
              var kept := KeptPages(extraction.value);
              var chunks := Chunking.Chunks(JoinWithSpace(PageTexts(kept)), chunkSize, overlap);
              response == Success(ProcessPdfResponse(database.id, filename, |kept|, |chunks|, BuildChunkList(chunks))) &&
              stored == Some(DocumentRecord(database.id, filename, |kept|, |chunks|))
    ensures response.Success? ==>
              stored.Some? &&
              response.value.totalChunks == |response.value.chunks| == stored.value.totalChunks &&
              response.value.totalPages == stored.value.totalPages &&
              response.value.documentId == stored.value.id
  {
    if !EndsWith(filename, ".pdf") {
      return Failure(NotPdf), None;
    }
    if extraction.Failure? {
      return Failure(ProcessingFailed(extraction.error)), None;
    }
    var textByPage := CollectPages(extraction.value);
    var fullText := JoinWithSpace(PageTexts(textByPage));
    var chunks := Chunking.ChunkText(fullText, chunkSize, overlap);
    match database {
      case FailedBeforeCommit(message) =>
        return Failure(ProcessingFailed(message)), None;
      case FailedAfterCommit(id, message) =>
        return Failure(ProcessingFailed(message)), Some(DocumentRecord(id, filename, |textByPage|, |chunks|));
      case Saved(documentId) =>
        stored := Some(DocumentRecord(documentId, filename, |textByPage|, |chunks|));
        response := Success(ProcessPdfResponse(documentId, filename, |textByPage|, |chunks|, BuildChunkList(chunks)));
    }
  }

  /** No page with text means an empty combined text and so no chunks at all. */
  lemma NoTextNoChunks(pages: seq<Option<string>>, chunkSize: nat, overlap: nat)
    requires overlap < chunkSize
    ensures var chunks := Chunking.Chunks(JoinWithSpace(PageTexts(KeptPages(pages))), chunkSize, overlap);
            chunks == [] <==> KeptPages(pages) == []
  {
    FullTextEmpty(pages);
    Chunking.ChunkCount(JoinWithSpace(PageTexts(KeptPages(pages))), chunkSize, overlap);
  }
}
