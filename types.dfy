/** Values shared by the compositor and the OCR aggregation: text as code
    points, the line record the OCR service produces, the errors the
    conversion can raise, and the font chain with the two font metrics the
    compositor asks of a font. */
module Types {

  datatype Option<T> = None | Some(value: T)

  datatype Result<T, E> = Ok(value: T) | Err(error: E)

  /** A Unicode scalar position; a Java string is read as a sequence of these. */
  type CodePoint = cp: int | 0 <= cp < 0x11_0000

  type Text = seq<CodePoint>

  /** One OCR line: a bounding box in fractions of the page size (origin at
      the top left, top growing downwards) and the recognised text. */
  datatype TextLine = TextLine(left: real, top: real, width: real, height: real, text: Text)

  datatype Error =
    | CannotEncode(cp: CodePoint)   // no font of the chain encodes cp
    | NoGlyph(cp: CodePoint)        // the font chosen for a draw has no glyph for cp
    | PageMissing(index: nat)       // the OCR result has no line list for this page

  /** The ordered fallback chain. `canEncode(f, cp)` holds when `f` can encode
      the code point `cp`; `stringWidth(f, t)` is the advance width of `t` in
      `f`, in thousandths of the font size. */
  datatype FontChain<!F> = FontChain(
    fonts: seq<F>,
    canEncode: (F, CodePoint) -> bool,
    stringWidth: (F, Text) -> real)
}
