/** The box dictionaries that the extractor, PDFPig and the math detector
    produce, reduced to the keys the filters read. Each key may be absent. */
module Records {
  import opened Wrappers

  /** `x`, `y`, `width`, `height`, `page` (PyMuPDF and math boxes), `Page`
      (PDFPig boxes) and `text`. */
  datatype Record = Record(x: Option<real>, y: Option<real>, width: Option<real>, height: Option<real>,
                           page: Option<int>, pageCap: Option<int>, text: Option<string>)

  /** `box.get("page", 1)`. */
  function PageOf(r: Record): int {
    r.page.GetOr(1)
  }

  /** `box.get("Page", 1)`. */
  function CapPageOf(r: Record): int {
    r.pageCap.GetOr(1)
  }

  /** All four coordinate keys are present, so `box["x"]` and the others
      raise no KeyError. */
  predicate HasCoords(r: Record) {
    r.x.Some? && r.y.Some? && r.width.Some? && r.height.Some?
  }
}
