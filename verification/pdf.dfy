/** The page-text collaborator (pdfplumber), reduced to what it hands over. */
module Pdf {
  import opened Wrappers

  /** What reading a PDF gives: the text of each page read, in document
      order (absent where pdfplumber found none), and whether an exception
      ended the reading — when opening the file, or on the page after the
      last one listed. */
  datatype PdfRead = PdfRead(pages: seq<Option<string>>, raised: bool)
}
