/**
 * The controller's configuration record, as it stands once the defaults,
 * the constructor options and the element's data attributes have been merged,
 * and the built-in defaults themselves.
 */
module Config {

  /** A size limit as configured: the number 0 (the built-in default for
      `maxFileSize`) or a text with a unit suffix such as "5M". */
  datatype SizeSetting = NumericZero | SizeText(text: string)

  /** The seven validation failures, named as the `error.<key>` events name them. */
  datatype ErrorKey = FileSize | FileExtension | MinWidth | MaxWidth | MinHeight | MaxHeight | ImageFormat

  /** The `error` message templates; the deep merge keeps all seven present. */
  datatype ErrorTemplates = ErrorTemplates(
    fileSize: string,
    minWidth: string,
    maxWidth: string,
    minHeight: string,
    maxHeight: string,
    imageFormat: string,
    fileExtension: string)
  {
    function Template(k: ErrorKey): string
    {
      match k
      case FileSize => fileSize
      case FileExtension => fileExtension
      case MinWidth => minWidth
      case MaxWidth => maxWidth
      case MinHeight => minHeight
      case MaxHeight => maxHeight
      case ImageFormat => imageFormat
    }
  }

  /** The settings the validation and bookkeeping read. `messages` keeps its
      keys in the order a `for … in` loop visits them. The markup templates,
      the one part the controller rewrites, are kept apart (`DefaultTemplates`). */
  datatype Settings = Settings(
    maxFileSize: SizeSetting,
    minWidth: nat,
    maxWidth: nat,
    minHeight: nat,
    maxHeight: nat,
    showErrors: bool,
    imgFileExtensions: seq<string>,
    maxFileSizePreview: SizeSetting,
    allowedFormats: seq<string>,
    allowedFileExtensions: seq<string>,
    messages: seq<(string, string)>,
    error: ErrorTemplates)

  /** The built-in defaults of the controller, with the error templates corrected:
      `error` is `CorrectedErrorTemplates`, where the source writes `WrittenErrorTemplates`. */
  function Defaults(): Settings
  {
    Settings(
      maxFileSize := NumericZero,
      minWidth := 0,
      maxWidth := 0,
      minHeight := 0,
      maxHeight := 0,
      showErrors := true,
      imgFileExtensions := ["png", "jpg", "jpeg", "gif", "bmp"],
      maxFileSizePreview := SizeText("5M"),
      allowedFormats := ["portrait", "square", "landscape"],
      allowedFileExtensions := ["*"],
      messages := DefaultMessages,
      error := CorrectedErrorTemplates)
  }

  const DefaultMessages: seq<(string, string)> := [
    ("default", "Drag and drop a file here or click"),
    ("replace", "Drag and drop or click to replace"),
    ("remove", "Remove"),
    ("error", "Ooops, something wrong happended.")]

  /** The placeholder an error template shows its limit or list in. */
  const ValuePlaceholder: string := "{{ value }}"

  /** The built-in error templates corrected: the width and minimum-height templates
      close their placeholder as `maxHeight` does (see `WrittenErrorTemplates`). */
  const CorrectedErrorTemplates: ErrorTemplates := ErrorTemplates(
    fileSize := "The file size is too big (" + ValuePlaceholder + " max).",
    minWidth := "The image width is too small (" + ValuePlaceholder + "px min).",
    maxWidth := "The image width is too big (" + ValuePlaceholder + "px max).",
    minHeight := "The image height is too small (" + ValuePlaceholder + "px min).",
    maxHeight := "The image height is too big (" + ValuePlaceholder + "px max).",
    imageFormat := "The image format is not allowed (" + ValuePlaceholder + " only).",
    fileExtension := "The file is not allowed (" + ValuePlaceholder + " only).")

  /** The built-in error templates as the source writes them: the `minWidth`,
      `maxWidth` and `minHeight` templates carry one `}` too many after `{{ value }}`. */
  const WrittenErrorTemplates: ErrorTemplates := ErrorTemplates(
    fileSize := "The file size is too big (" + ValuePlaceholder + " max).",
    minWidth := "The image width is too small (" + ValuePlaceholder + "}px min).",
    maxWidth := "The image width is too big (" + ValuePlaceholder + "}px max).",
    minHeight := "The image height is too small (" + ValuePlaceholder + "}px min).",
    maxHeight := "The image height is too big (" + ValuePlaceholder + "px max).",
    imageFormat := "The image format is not allowed (" + ValuePlaceholder + " only).",
    fileExtension := "The file is not allowed (" + ValuePlaceholder + " only).")

  /** The placeholder a markup template shows the message of `key` in. */
  function Placeholder(key: string): string
  {
    "{{ " + key + " }}"
  }

  /** The built-in markup templates, in which `{{ key }}` stands for the message of that key,
      in the order a `for … in` loop visits them. */
  const DefaultTemplates: seq<(string, string)> := [
    ("wrap", "<div class=\"dropify-wrapper\"></div>"),
    ("loader", "<div class=\"dropify-loader\"></div>"),
    ("message", "<div class=\"dropify-message\"><span class=\"file-icon\" /> <p>" + Placeholder("default") + "</p></div>"),
    ("preview", "<div class=\"dropify-preview\"><span class=\"dropify-render\"></span><div class=\"dropify-infos\"><div class=\"dropify-infos-inner\"><p class=\"dropify-infos-message\">" + Placeholder("replace") + "</p></div></div></div>"),
    ("filename", "<p class=\"dropify-filename\"><span class=\"dropify-filename-inner\"></span></p>"),
    ("clearButton", "<button type=\"button\" class=\"dropify-clear\">" + Placeholder("remove") + "</button>"),
    ("errorLine", "<p class=\"dropify-error\">" + Placeholder("error") + "</p>"),
    ("errorsContainer", "<div class=\"dropify-errors-container\"><ul></ul></div>")]
}
