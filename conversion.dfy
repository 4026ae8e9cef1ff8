/** The conversion front end (conversion/__init__.py): the engine chosen by
    name, and the delegation of `convert_epub_to_pdf` to it. */
module Conversion {
  import opened Wrappers
  import opened Paths
  import opened Errors

  datatype Converter = EpubToPdfConverter | CalibreConverter

  datatype ConversionEngine = ConversionEngine(engine: string, converter: Converter)

  /** One call of a converter's `convert(epub_path, pdf_path)`. */
  datatype ConvertCall = ConvertCall(converter: Converter, epubPath: Path, pdfPath: Path)

  /** `ConversionEngine(engine)`: exact, case-sensitive names only. */
  function NewEngine(engine: string): (r: Result<ConversionEngine, Error>)
    ensures r.Success? <==> engine == "python" || engine == "calibre"
    ensures r.Success? ==> r.value.engine == engine
    ensures r.Success? ==> (r.value.converter == EpubToPdfConverter <==> engine == "python")
    ensures r.Failure? ==> r.error == ValueError("Unsupported conversion engine: " + engine)
  {
    if engine == "python" then Success(ConversionEngine(engine, EpubToPdfConverter))
    else if engine == "calibre" then Success(ConversionEngine(engine, CalibreConverter))
    else Failure(ValueError("Unsupported conversion engine: " + engine))
  }

  /** `convert_epub_to_pdf`: the calls it makes to converters. */
  function ConvertEpubToPdf(e: ConversionEngine, epubPath: Path, pdfPath: Path): (calls: seq<ConvertCall>)
    ensures |calls| == 1
    ensures calls[0].converter == e.converter && calls[0].epubPath == epubPath && calls[0].pdfPath == pdfPath
  {
    [ConvertCall(e.converter, epubPath, pdfPath)]
  }
}
