/**
  The "Generate PDF" handler (app.py lines 72-152) with its foreign calls
  as parameters: reading the template file, Jinja2's `render`, and the
  floating-point rendering of amounts that are not plain digit strings.
*/
module App {
  import opened Wrappers
  import opened Fields
  import opened Flowables
  import opened Catalog
  import opened Text

  /** What is handed to the PDF builder and to the download button. */
  datatype Document = Document(blocks: seq<Block>, fileName: string)

  method GeneratePdf(
    listing: seq<string>, waiverType: string, fields: map<string, Value>,
    readFile: string -> string, render: (string, map<string, Value>) -> string,
    renderFloat: string -> string)
    returns (r: Result<Document, Error>)
    requires waiverType in Templates(listing)
    ensures r.Success? <==> HasCurrencyKeys(fields)
    ensures r.Failure? ==> exists i :: FirstMissing(fields, i) && r.error == KeyError(CurrencyKeys[i])
    ensures r.Success? ==> r.value == Document(
      Layout(SplitLines(render(readFile(Templates(listing)[waiverType]), Normalised(fields, renderFloat)))),
      DownloadName(waiverType))
  {
    var templateText := readFile(Templates(listing)[waiverType]);
    var formatted := NormaliseFields(fields, renderFloat);
    if formatted.Failure? {
      return Failure(formatted.error);
    }
    var renderedText := render(templateText, formatted.value);
    var flowables := LayOut(renderedText);
    r := Success(Document(flowables, DownloadName(waiverType)));
  }
}
