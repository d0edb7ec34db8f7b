/** The texts of the 422 responses. */
module Messages {

  import opened JsText

  const InvalidUploadText: string :=
    "Invalid upload data, request must contains a body with form with enctype=\"multipart/form-data\", and inputs with type=\"file\". For a while, it does not support input with multiple attribute, but you can work around this in javascript by creating a virtual form and adding an input element for each \"file\" object in (\"input [type = file]\").files."

  /** The message when the content type is not multipart form data with a
      boundary. */
  function InvalidUpload(): string
  {
    InvalidUploadText
  }

  /** The declared or summed size of the whole upload is over the limit;
      size is the text as the request gave it. */
  function TotalSizeExceeded(size: string, maximum: int): string
  {
    "Maximum total upload size exceeded, size: " + size + " bytes, maximum: " + IntToString(maximum) + " bytes."
  }

  function ExtensionNotAllowed(ext: string, filename: string, allowed: seq<string>): string
  {
    "The file extension is not allowed (" + ext + " in " + filename + "). Allowed extensions: " + Join(allowed) + "."
  }

  function FileSizeExceeded(filename: string, size: int, maximum: int): string
  {
    "Maximum file upload size exceeded, file: " + filename + ", size: " + IntToString(size) + " bytes, maximum: " + IntToString(maximum) + " bytes."
  }
}
